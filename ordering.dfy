/** The order in which the list handler returns rows: descending on one
    column, comparing text by code points (SQLite's default BINARY
    collation on UTF-8 text). */
module Ordering {
  import opened Models

  /** `a` is at most `b` in code-point lexicographic order. */
  predicate LexLe(a: string, b: string) {
    |a| == 0 || (|b| > 0 && (a[0] < b[0] || (a[0] == b[0] && LexLe(a[1..], b[1..]))))
  }

  lemma {:induction false} LexLeReflexive(a: string)
    ensures LexLe(a, a)
  {
    if |a| > 0 {
      LexLeReflexive(a[1..]);
    }
  }

  lemma {:induction false} LexLeTotal(a: string, b: string)
    ensures LexLe(a, b) || LexLe(b, a)
  {
    if |a| > 0 && |b| > 0 && a[0] == b[0] {
      LexLeTotal(a[1..], b[1..]);
    }
  }

  lemma {:induction false} LexLeTransitive(a: string, b: string, c: string)
    requires LexLe(a, b) && LexLe(b, c)
    ensures LexLe(a, c)
  {
    if |a| > 0 && a[0] == b[0] && b[0] == c[0] {
      LexLeTransitive(a[1..], b[1..], c[1..]);
    }
  }

  lemma {:induction false} LexLeAntisymmetric(a: string, b: string)
    requires LexLe(a, b) && LexLe(b, a)
    ensures a == b
  {
    if |a| > 0 {
      LexLeAntisymmetric(a[1..], b[1..]);
      assert a == [a[0]] + a[1..] && b == [b[0]] + b[1..];
    }
  }

  /** What a row is ordered by in a column: its text there. A NULL country
      sorts below every text, as NULL does in SQLite. */
  function SortKey(u: User, col: Column): string {
    var f := Field(u, col);
    if f.Some? then f.value else ""
  }

  /** Non-increasing in `col` from the first row to the last. */
  ghost predicate SortedDesc(us: seq<User>, col: Column) {
    forall i, j {:trigger LexLe(SortKey(us[j], col), SortKey(us[i], col))} :: 0 <= i < j < |us| ==> LexLe(SortKey(us[j], col), SortKey(us[i], col))
  }

  /** `o` holds exactly the rows of `t`, descending in `col`. */
  ghost predicate IsDescOrdering(o: seq<User>, t: seq<User>, col: Column) {
    multiset(o) == multiset(t) && SortedDesc(o, col)
  }

  /** A row whose key is at least every key of a descending sequence can
      go in front of it. */
  lemma SortedCons(x: User, us: seq<User>, col: Column)
    requires SortedDesc(us, col)
    requires forall i :: 0 <= i < |us| ==> LexLe(SortKey(us[i], col), SortKey(x, col))
    ensures SortedDesc([x] + us, col)
  {
    var r := [x] + us;
    forall i, j | 0 <= i < j < |r| ensures LexLe(SortKey(r[j], col), SortKey(r[i], col)) {
      assert r[j] == us[j - 1];
      if i > 0 {
        assert r[i] == us[i - 1];
      }
    }
  }

  /** Removing one row from a descending sequence leaves it descending. */
  lemma SortedRemove(us: seq<User>, k: nat, col: Column)
    requires SortedDesc(us, col) && k < |us|
    ensures SortedDesc(us[..k] + us[k + 1..], col)
  {
    var r := us[..k] + us[k + 1..];
    forall i, j | 0 <= i < j < |r| ensures LexLe(SortKey(r[j], col), SortKey(r[i], col)) {
      var i', j' := if i < k then i else i + 1, if j < k then j else j + 1;
      assert r[i] == us[i'] && r[j] == us[j'];
    }
  }

  lemma RemoveAt(us: seq<User>, k: nat)
    requires k < |us|
    ensures multiset(us[..k] + us[k + 1..]) == multiset(us) - multiset{us[k]}
  {
    assert us == us[..k] + [us[k]] + us[k + 1..];
  }

  /** A row at least as great as the first of a descending sequence goes in
      front of all of it. */
  lemma InsertInFront(u: User, us: seq<User>, col: Column)
    requires SortedDesc(us, col) && |us| > 0 && LexLe(SortKey(us[0], col), SortKey(u, col))
    ensures SortedDesc([u] + us, col)
  {
    forall i | 0 < i < |us| ensures LexLe(SortKey(us[i], col), SortKey(u, col)) {
      LexLeTransitive(SortKey(us[i], col), SortKey(us[0], col), SortKey(u, col));
    }
    SortedCons(u, us, col);
  }

  /** A row smaller than the first of a descending sequence goes behind it:
      the first row stays in front of the others with the row placed. */
  lemma InsertBehindHead(u: User, us: seq<User>, rest: seq<User>, col: Column)
    requires SortedDesc(us, col) && |us| > 0 && !LexLe(SortKey(us[0], col), SortKey(u, col))
    requires SortedDesc(rest, col) && multiset(rest) == multiset(us[1..]) + multiset{u}
    ensures SortedDesc([us[0]] + rest, col)
  {
    LexLeTotal(SortKey(us[0], col), SortKey(u, col));
    forall i | 0 <= i < |rest| ensures LexLe(SortKey(rest[i], col), SortKey(us[0], col)) {
      assert rest[i] in multiset(rest);
      if rest[i] != u {
        assert rest[i] in multiset(us[1..]);
        var k :| 0 <= k < |us[1..]| && us[1..][k] == rest[i];
        assert us[k + 1] == rest[i];
      }
    }
    SortedCons(us[0], rest, col);
  }

  lemma ConsMultiset(u: User, us: seq<User>, rest: seq<User>)
    requires |us| > 0 && multiset(rest) == multiset(us[1..]) + multiset{u}
    ensures multiset([us[0]] + rest) == multiset(us) + multiset{u}
  {
    assert us == [us[0]] + us[1..];
  }

  /** Places `u` into rows already descending in `col`. */
  function InsertDesc(u: User, us: seq<User>, col: Column): (r: seq<User>)
    requires SortedDesc(us, col)
    ensures multiset(r) == multiset(us) + multiset{u}
    ensures SortedDesc(r, col)
  {
    if us == [] then [u]
    else if LexLe(SortKey(us[0], col), SortKey(u, col)) then
      InsertInFront(u, us, col);
      [u] + us
    else
      SortedRemove(us, 0, col);
      assert us[..0] + us[1..] == us[1..];
      var rest := InsertDesc(u, us[1..], col);
      InsertBehindHead(u, us, rest, col);
      ConsMultiset(u, us, rest);
      [us[0]] + rest
  }

  /** The rows of `us`, descending in `col`; the order among rows with equal
      keys is not what the model promises. */
  function OrderDesc(us: seq<User>, col: Column): (r: seq<User>)
    ensures IsDescOrdering(r, us, col)
  {
    if us == [] then []
    else
      assert us == [us[0]] + us[1..];
      InsertDesc(us[0], OrderDesc(us[1..], col), col)
  }

  /** Two descending orderings of the same non-empty rows start with the
      same key: the greatest one. */
  lemma HeadKeysEqual(o1: seq<User>, o2: seq<User>, col: Column)
    requires multiset(o1) == multiset(o2) && SortedDesc(o1, col) && SortedDesc(o2, col)
    requires |o1| > 0 && |o2| > 0
    ensures SortKey(o1[0], col) == SortKey(o2[0], col)
  {
    var x, y := o1[0], o2[0];
    assert x in multiset(o2) && y in multiset(o1);
    var k :| 0 <= k < |o2| && o2[k] == x;
    var m :| 0 <= m < |o1| && o1[m] == y;
    LexLeReflexive(SortKey(x, col));
    LexLeReflexive(SortKey(y, col));
    LexLeAntisymmetric(SortKey(x, col), SortKey(y, col));
  }

  /** In a descending sequence, a row whose key equals the first key has
      that key at every position before it as well. */
  lemma PlateauBefore(us: seq<User>, k: nat, col: Column)
    requires SortedDesc(us, col) && k < |us| && SortKey(us[k], col) == SortKey(us[0], col)
    ensures forall i :: 0 <= i <= k ==> SortKey(us[i], col) == SortKey(us[0], col)
  {
    forall i | 0 < i < k ensures SortKey(us[i], col) == SortKey(us[0], col) {
      LexLeAntisymmetric(SortKey(us[0], col), SortKey(us[i], col));
    }
  }

  /** The first row of `o1` sits at some `k` in `o2`, and every row of `o2`
      up to `k` has the first key. */
  lemma LocateFirstRow(o1: seq<User>, o2: seq<User>, col: Column) returns (k: nat)
    requires multiset(o1) == multiset(o2) && SortedDesc(o1, col) && SortedDesc(o2, col)
    requires |o1| > 0
    ensures k < |o2| && |o2| == |o1| && o2[k] == o1[0]
    ensures SortKey(o1[0], col) == SortKey(o2[0], col)
    ensures forall i :: 0 <= i <= k ==> SortKey(o2[i], col) == SortKey(o2[0], col)
  {
    assert |o1| == |multiset(o1)| == |multiset(o2)| == |o2|;
    HeadKeysEqual(o1, o2, col);
    assert o1[0] in multiset(o2);
    k :| 0 <= k < |o2| && o2[k] == o1[0];
    PlateauBefore(o2, k, col);
  }

  /** Removing the same row from two sequences of the same rows leaves two
      sequences of the same rows. */
  lemma RemoveFromBoth(o1: seq<User>, o2: seq<User>, k: nat)
    requires multiset(o1) == multiset(o2)
    requires |o1| > 0 && k < |o2| && o2[k] == o1[0]
    ensures multiset(o1[1..]) == multiset(o2[..k] + o2[k + 1..])
  {
    assert o1 == [o1[0]] + o1[1..];
    assert o2 == o2[..k] + [o2[k]] + o2[k + 1..];
    assert multiset(o2) == multiset(o2[..k]) + multiset{o1[0]} + multiset(o2[k + 1..]);
    assert multiset(o2[..k] + o2[k + 1..]) == multiset(o2[..k]) + multiset(o2[k + 1..]);
    assert multiset(o1) == multiset{o1[0]} + multiset(o1[1..]);
    assert multiset(o1[1..]) == multiset(o1) - multiset{o1[0]};
    assert multiset(o2[..k] + o2[k + 1..]) == multiset(o2) - multiset{o1[0]};
  }

  /** Dropping the first row of a descending sequence leaves it descending. */
  lemma SortedTail(us: seq<User>, col: Column)
    requires SortedDesc(us, col) && |us| > 0
    ensures SortedDesc(us[1..], col)
  {
    var r := us[1..];
    forall i, j | 0 <= i < j < |r| ensures LexLe(SortKey(r[j], col), SortKey(r[i], col)) {
      assert r[i] == us[i + 1] && r[j] == us[j + 1];
    }
  }

  /** Glues the key agreement of the first rows and of the remainders
      (the first row removed from `o1`, the row at `k` from `o2`) into key
      agreement at every position. */
  lemma CombineKeys(o1: seq<User>, o2: seq<User>, k: nat, col: Column)
    requires |o1| == |o2| && k < |o2|
    requires SortKey(o1[0], col) == SortKey(o2[0], col)
    requires forall i :: 0 <= i <= k ==> SortKey(o2[i], col) == SortKey(o2[0], col)
    requires forall i :: 0 <= i < |o1| - 1 ==> SortKey(o1[1..][i], col) == SortKey((o2[..k] + o2[k + 1..])[i], col)
    ensures forall i :: 0 <= i < |o1| ==> SortKey(o1[i], col) == SortKey(o2[i], col)
  {
    var tail1, tail2 := o1[1..], o2[..k] + o2[k + 1..];
    forall i | 0 < i < |o1| ensures SortKey(o1[i], col) == SortKey(o2[i], col) {
      assert o1[i] == tail1[i - 1];
      assert SortKey(tail1[i - 1], col) == SortKey(tail2[i - 1], col);
      if i <= k {
        assert tail2[i - 1] == o2[i - 1];
      } else {
        assert tail2[i - 1] == o2[i];
      }
    }
  }

  /** Two descending orderings of the same rows agree on the key at every
      position: the listing is determined except for the order of rows
      whose keys are equal. */
  lemma {:induction false} DescOrderingKeysUnique(o1: seq<User>, o2: seq<User>, col: Column)
    requires multiset(o1) == multiset(o2) && SortedDesc(o1, col) && SortedDesc(o2, col)
    ensures |o1| == |o2|
    ensures forall i :: 0 <= i < |o1| ==> SortKey(o1[i], col) == SortKey(o2[i], col)
    decreases |o1|
  {
    if |o1| == 0 {
      assert |multiset(o2)| == 0;
    } else {
      var k := LocateFirstRow(o1, o2, col);
      RemoveFromBoth(o1, o2, k);
      SortedTail(o1, col);
      SortedRemove(o2, k, col);
      DescOrderingKeysUnique(o1[1..], o2[..k] + o2[k + 1..], col);
      CombineKeys(o1, o2, k, col);
    }
  }
}
