/** Loops that keep some elements of a list: which ones, in what order and how often. */
module Selection {

  ghost predicate Ascending(idx: seq<nat>) {
    forall i, j :: 0 <= i < j < |idx| ==> idx[i] < idx[j]
  }

  /** `out` holds the elements of `s` at the positions `idx`, which are those where `keep` holds. */
  ghost predicate SelectsAt<T>(s: seq<T>, keep: T -> bool, out: seq<T>, idx: seq<nat>) {
    && Ascending(idx) && |idx| == |out|
    && (forall j :: 0 <= j < |idx| ==> idx[j] < |s| && out[j] == s[idx[j]])
    && (forall i: nat :: i < |s| ==> (keep(s[i]) <==> i in idx))
  }

  /** `out` is what is left of `s` when all but the elements to keep are struck out. */
  ghost predicate Selects<T>(s: seq<T>, keep: T -> bool, out: seq<T>) {
    exists idx :: SelectsAt(s, keep, out, idx)
  }

  lemma SelectsNothing<T>(keep: T -> bool)
    ensures Selects([], keep, [])
  {
    assert SelectsAt([], keep, [], []);
  }

  lemma LeavesOne<T>(s: seq<T>, i: nat, keep: T -> bool, out: seq<T>, idx: seq<nat>)
    requires i < |s| && SelectsAt(s[..i], keep, out, idx) && !keep(s[i])
    ensures SelectsAt(s[..i + 1], keep, out, idx)
  {
    forall k: nat | k < i + 1 ensures keep(s[..i + 1][k]) <==> k in idx {
      assert forall j :: 0 <= j < |idx| ==> idx[j] < i;
      assert k < i ==> s[..i + 1][k] == s[..i][k];
    }
    forall j | 0 <= j < |idx| ensures idx[j] < i + 1 && out[j] == s[..i + 1][idx[j]] {
      assert out[j] == s[..i][idx[j]];
    }
  }

  lemma KeepsOne<T>(s: seq<T>, i: nat, keep: T -> bool, out: seq<T>, idx: seq<nat>)
    requires i < |s| && SelectsAt(s[..i], keep, out, idx) && keep(s[i])
    ensures SelectsAt(s[..i + 1], keep, out + [s[i]], idx + [i])
  {
    var longer, kept := idx + [i], out + [s[i]];
    forall k: nat | k < i + 1 ensures keep(s[..i + 1][k]) <==> k in longer {
      assert k in longer <==> k in idx || k == i;
      assert k < i ==> s[..i + 1][k] == s[..i][k];
    }
    forall j | 0 <= j < |longer| ensures longer[j] < i + 1 && kept[j] == s[..i + 1][longer[j]] {
      assert j < |idx| ==> out[j] == s[..i][idx[j]];
    }
  }

  /** One element more, for a list read up to position i. */
  lemma SelectsNext<T>(s: seq<T>, i: nat, keep: T -> bool, before: seq<T>, after: seq<T>)
    requires i < |s| && Selects(s[..i], keep, before)
    requires after == if keep(s[i]) then before + [s[i]] else before
    ensures Selects(s[..i + 1], keep, after)
  {
    var idx :| SelectsAt(s[..i], keep, before, idx);
    if keep(s[i]) {
      KeepsOne(s, i, keep, before, idx);
    } else {
      LeavesOne(s, i, keep, before, idx);
    }
  }

  lemma SelectsAll<T>(s: seq<T>, keep: T -> bool, out: seq<T>)
    requires Selects(s[..|s|], keep, out)
    ensures Selects(s, keep, out)
  {
    assert s[..|s|] == s;
  }

  /** What is kept, and how often. */
  lemma SelectsMembers<T>(s: seq<T>, keep: T -> bool, out: seq<T>)
    requires Selects(s, keep, out)
    ensures forall x :: x in out <==> x in s && keep(x)
  {
    var idx :| SelectsAt(s, keep, out, idx);
    forall x ensures x in out <==> x in s && keep(x) {
      if x in out {
        var j :| 0 <= j < |out| && out[j] == x;
        assert idx[j] in idx;
      }
      if x in s && keep(x) {
        var i: nat :| i < |s| && s[i] == x;
        var j :| 0 <= j < |idx| && idx[j] == i;
        assert out[j] == x;
      }
    }
  }

  /** The elements to keep and the list decide the result. */
  lemma SelectsUnique<T>(s: seq<T>, keep: T -> bool, a: seq<T>, b: seq<T>)
    requires Selects(s, keep, a) && Selects(s, keep, b)
    ensures a == b
  {
    var i :| SelectsAt(s, keep, a, i);
    var j :| SelectsAt(s, keep, b, j);
    forall k: nat ensures k in i <==> k in j {
      assert k in i ==> k < |s|;
    }
    if |i| >= |j| {
      AscendingUnique(i, j);
    } else {
      AscendingUnique(j, i);
    }
  }

  lemma {:induction false} AscendingUnique(a: seq<nat>, b: seq<nat>)
    requires Ascending(a) && Ascending(b) && |a| >= |b| && forall k: nat :: k in a <==> k in b
    ensures a == b
  {
    if a != [] {
      assert a[0] in a && b != [];
      assert b[0] in b && a[0] == b[0];
      forall k: nat ensures k in a[1..] <==> k in b[1..] {
        assert a == [a[0]] + a[1..] && b == [b[0]] + b[1..];
        assert k in a <==> k in b;
      }
      AscendingUnique(a[1..], b[1..]);
    }
  }
}
