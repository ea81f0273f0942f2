/** Which rows an apply chooses: legacy candidates, the richest row, the rows reported as new. */
module SnapshotChoice {
  import opened Common
  import opened SnapshotRows
  import opened SnapshotTheorems

  // ---- the xored uid ----

  predicate Bit(n: nat, i: nat) {
    if i == 0 then n % 2 == 1 else Bit(n / 2, i - 1)
  }

  lemma {:induction false} XorLow(a: nat, b: nat)
    ensures Xor(a, b) / 2 == Xor(a / 2, b / 2)
    ensures Xor(a, b) % 2 == 1 <==> a % 2 != b % 2
  {
    if a == 0 && b == 0 {
      assert Xor(0, 0) == 0;
    }
  }

  /** A bit of the xor is set when the bits of the two numbers differ. */
  lemma {:induction false} XorBits(a: nat, b: nat, i: nat)
    ensures Bit(Xor(a, b), i) <==> Bit(a, i) != Bit(b, i)
  {
    XorLow(a, b);
    if i > 0 {
      XorBits(a / 2, b / 2, i - 1);
    }
  }

  lemma {:induction false} XorTwice(a: nat, b: nat)
    ensures Xor(Xor(a, b), b) == a
    decreases a + b
  {
    if a != 0 || b != 0 {
      XorLow(a, b);
      XorLow(Xor(a, b), b);
      XorTwice(a / 2, b / 2);
    }
  }

  lemma {:induction false} XorIsSmall(a: nat, b: nat)
    ensures Xor(a, b) <= a + b
    decreases a + b
  {
    if a != 0 || b != 0 {
      XorIsSmall(a / 2, b / 2);
    }
  }

  /** Where the sum of uid and position has 63 bits, the sign is not touched. */
  lemma {:induction false} XorUidIsXor(uid: nat, index: nat)
    requires uid + index < TWO64 / 2
    ensures XorUid(uid, index) == Xor(uid, index)
  {
    hide Xor;
    XorIsSmall(uid, index);
    assert uid % TWO64 == uid;
  }

  predicate IsPower(n: nat) {
    n == 1 || (n > 1 && n % 2 == 0 && IsPower(n / 2))
  }

  lemma {:induction false} XorFits(a: nat, b: nat, n: nat)
    requires IsPower(n) && a < n && b < n
    ensures Xor(a, b) < n
  {
    if n > 1 {
      XorFits(a / 2, b / 2, n / 2);
    }
  }

  lemma {:induction false} PowersMultiply(a: nat, b: nat)
    requires IsPower(a) && IsPower(b)
    ensures IsPower(a * b)
  {
    if a > 1 {
      PowersMultiply(a / 2, b);
      Twice(a / 2, b);
      assert a == 2 * (a / 2);
      IsTwice(a * b, a / 2 * b);
    }
  }

  lemma Twice(a: nat, b: nat)
    ensures 2 * a * b == 2 * (a * b)
  {
  }

  lemma {:induction false} IsTwice(n: nat, half: nat)
    requires n == 2 * half && IsPower(half)
    ensures IsPower(n)
  {
  }

  lemma Powers64()
    ensures IsPower(TWO64)
  {
    assert IsPower(256);
    PowersMultiply(256, 256);
    PowersMultiply(65536, 65536);
    PowersMultiply(TWO32, TWO32);
  }

  /** The xored uid is a 64-bit number, in two's complement the xor of uid and position. */
  lemma {:induction false} XorUidIs(uid: int, index: nat)
    requires index < TWO64
    ensures -TWO64 / 2 <= XorUid(uid, index) < TWO64 / 2
    ensures XorUid(uid, index) % TWO64 == Xor(uid % TWO64, index)
  {
    hide Xor, IsPower;
    Powers64();
    XorFits(uid % TWO64, index, TWO64);
  }

  // ---- candidates ----

  /** A row without provider id is a candidate when its uid is one of the three, or its message id
      is the row's and no other row of the snapshot has that. */
  lemma CandidatesAre(m: Messages, folder: string, rows: seq<SnapshotHeader>, index: nat, k: Key)
    requires index < |rows|
    ensures var row := rows[index];
      var alone := row.headers.messageId.Some? && forall j | 0 <= j < |rows| && j != index ::
        rows[j].headers.messageId != row.headers.messageId;
      k in Candidates(m, folder, rows, index) <==>
        && k in m && k.folder == folder && m[k].providerId.None?
        && (k.uid == row.uid || k.uid == row.uid % 0x1_0000_0000 || k.uid == XorUid(row.uid, index)
            || (alone && m[k].headers.messageId == row.headers.messageId))
  {
    if rows[index].headers.messageId.Some? {
      OccursOnce(rows, rows[index].headers.messageId.value, index);
    }
  }

  lemma {:induction false} Occurs(rows: seq<SnapshotHeader>, id: string)
    ensures Occurrences(rows, id) > 0 <==> exists i | 0 <= i < |rows| :: rows[i].headers.messageId == Some(id)
  {
    if rows != [] {
      var fewer := rows[..|rows| - 1];
      Occurs(fewer, id);
      assert forall i | 0 <= i < |fewer| :: fewer[i] == rows[i];
      assert rows[|rows| - 1].headers.messageId == Some(id) || Occurrences(rows, id) == Occurrences(fewer, id);
    }
  }

  lemma {:induction false} OccursOnce(rows: seq<SnapshotHeader>, id: string, i: nat)
    requires i < |rows| && rows[i].headers.messageId == Some(id)
    ensures Occurrences(rows, id) == 1 <==>
      forall j | 0 <= j < |rows| && j != i :: rows[j].headers.messageId != Some(id)
  {
    var fewer := rows[..|rows| - 1];
    assert forall j | 0 <= j < |fewer| :: fewer[j] == rows[j];
    Occurs(fewer, id);
    if i < |rows| - 1 {
      OccursOnce(fewer, id, i);
    }
  }

  // ---- the richest row ----

  /** A row with a body if there is one, of those with the fewest headers-only marks, of those fetched
      last, of those with the greatest uid. */
  lemma {:induction false} RichestIs(m: Messages, keys: set<Key>, k: Key)
    requires keys <= m.Keys
    ensures IsRichest(m, keys, k) <==> k in keys && forall j | j in keys ::
      var a, b := m[k], m[j];
      && (b.maildirPath.Some? ==> a.maildirPath.Some?)
      && (a.maildirPath.Some? == b.maildirPath.Some? ==>
            && a.headersOnly <= b.headersOnly
            && (a.headersOnly == b.headersOnly ==>
                  && a.fetchedAt >= b.fetchedAt
                  && (a.fetchedAt == b.fetchedAt ==> k.uid >= j.uid)))
  {
  }

  // ---- what is reported as new ----

  lemma {:induction false} NewImapAppend(m: Messages, folder: string, uidvalidity: int, a: seq<SnapshotHeader>,
      b: seq<SnapshotHeader>)
    ensures NewImap(m, folder, uidvalidity, a + b)
         == NewImap(m, folder, uidvalidity, a) + NewImap(m, folder, uidvalidity, b)
    decreases |b|
  {
    if b == [] {
      assert a + b == a;
    } else {
      assert (a + b)[..|a + b| - 1] == a + b[..|b| - 1];
      NewImapAppend(m, folder, uidvalidity, a, b[..|b| - 1]);
    }
  }

  /** Exactly the rows above 0 and above every uid stored at the uidvalidity are reported, in order. */
  lemma {:induction false} NewImapIs(m: Messages, folder: string, uidvalidity: int, before: seq<SnapshotHeader>,
      row: SnapshotHeader, after: seq<SnapshotHeader>)
    ensures NewImap(m, folder, uidvalidity, before + [row] + after)
      == NewImap(m, folder, uidvalidity, before)
         + (if (forall k | k in m && k.folder == folder && k.uidvalidity == uidvalidity :: k.uid < row.uid)
               && (row.uid > 0 || exists k :: k in m && k.folder == folder && k.uidvalidity == uidvalidity)
            then [row] else [])
         + NewImap(m, folder, uidvalidity, after)
  {
    NewImapAppend(m, folder, uidvalidity, before + [row], after);
    NewImapAppend(m, folder, uidvalidity, before, [row]);
    assert [row][..0] == [];
    assert forall k | k in m && k.folder == folder && k.uidvalidity == uidvalidity ::
        k.uid in Uids(m, folder, uidvalidity);
  }

  /** A row is blocked exactly when its turn has no outcome. */
  lemma {:induction false} BlockedIff(m: Messages, folder: string, rows: seq<SnapshotHeader>, index: nat)
    requires index < |rows| && rows[index].providerId.Some?
    ensures Blocked(m, folder, rows, index) <==> forall m' :: !Turned(m, m', folder, rows, index)
  {
    var id, home := rows[index].providerId.value, Home(folder, rows[index]);
    var mine, legacy := Owned(m, folder, id), Candidates(m, folder, rows, index);
    if |legacy| == 1 {
      var c :| c in legacy;
      assert legacy == {c} by { OnlyMember(legacy, c); }
      if !Blocked(m, folder, rows, index) {
        assert Turned(m, (m - mine - {c})[home := m[c].(providerId := Some(id))], folder, rows, index);
      }
    } else if mine == {} {
      assert Turned(m, m, folder, rows, index);
    } else if !Blocked(m, folder, rows, index) {
      var k := SomeRichest(m, mine);
      assert Turned(m, (m - mine)[home := m[k]], folder, rows, index);
    }
  }

  lemma {:induction false} SomeRichest(m: Messages, keys: set<Key>) returns (k: Key)
    requires keys <= m.Keys && keys != {}
    ensures IsRichest(m, keys, k)
    decreases keys
  {
    k :| k in keys;
    var rest := keys - {k};
    assert forall x | x in keys :: x == k || x in rest;
    if rest != {} {
      var j := SomeRichest(m, rest);
      var first := k;
      if Richer(m[j], j.uid, m[k], k.uid) {
        k := j;
      }
      forall x | x in keys ensures !Richer(m[x], x.uid, m[k], k.uid) {
        if x != first {
          NotRicherFollows(m[x], x.uid, m[j], j.uid, m[first], first.uid);
        }
      }
    }
  }

  lemma NotRicherFollows(a: Row, aUid: int, b: Row, bUid: int, c: Row, cUid: int)
    ensures !Richer(a, aUid, b, bUid) && !Richer(b, bUid, c, cUid) ==> !Richer(a, aUid, c, cUid)
    ensures Richer(a, aUid, b, bUid) ==> !Richer(b, bUid, a, aUid)
  {
  }

  /** An opaque row is reported exactly when no row of the folder had its id before, and its turn did not
      find just one legacy candidate. */
  lemma {:induction false} ReportedIff(trace: seq<Messages>, folder: string, rows: seq<SnapshotHeader>, i: nat)
    requires Reconciliation(trace, folder, rows) && Distinct(rows) && i < |rows|
    ensures rows[i] in NewOpaque(ProviderIds(trace[0], folder), ReconciledIds(trace, folder, rows), rows)
      <==> (forall k | k in trace[0] && k.folder == folder :: trace[0][k].providerId != rows[i].providerId)
           && |Candidates(trace[i], folder, rows, i)| != 1
  {
    hide Candidates;
    var known, reconciled := ProviderIds(trace[0], folder), ReconciledIds(trace, folder, rows);
    NewOpaqueRows(known, reconciled, rows, rows[i]);
    assert rows[i].providerId.value in reconciled <==> |Candidates(trace[i], folder, rows, i)| == 1;
    if k :| k in trace[0] && k.folder == folder && trace[0][k].providerId == rows[i].providerId {
      assert rows[i].providerId.value in known;
    }
  }

  lemma {:induction false} NewOpaqueAppend(known: set<string>, reconciled: set<string>, a: seq<SnapshotHeader>,
      b: seq<SnapshotHeader>)
    ensures NewOpaque(known, reconciled, a + b) == NewOpaque(known, reconciled, a) + NewOpaque(known, reconciled, b)
    decreases |b|
  {
    if b == [] {
      assert a + b == a;
    } else {
      assert (a + b)[..|a + b| - 1] == a + b[..|b| - 1];
      NewOpaqueAppend(known, reconciled, a, b[..|b| - 1]);
    }
  }
}
