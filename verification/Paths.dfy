/** Walks, reachability and cycles of a finite relation. */
module Paths {

  ghost predicate IsWalk<V>(r: set<(V, V)>, w: seq<V>) {
    |w| > 0 && forall i :: 0 <= i < |w| - 1 ==> (w[i], w[i + 1]) in r
  }

  ghost predicate WalkFromTo<V>(r: set<(V, V)>, w: seq<V>, a: V, b: V) {
    IsWalk(r, w) && w[0] == a && w[|w| - 1] == b
  }

  ghost predicate Reaches<V(!new)>(r: set<(V, V)>, a: V, b: V) {
    exists w :: WalkFromTo(r, w, a, b)
  }

  ghost predicate Distinct<V>(s: seq<V>) {
    forall i, j :: 0 <= i < j < |s| ==> s[i] != s[j]
  }

  ghost function Elements(s: seq<string>): set<string> {
    set v | v in s
  }

  lemma DistinctSnoc(s: seq<string>, v: string)
    requires Distinct(s) && v !in s
    ensures Distinct(s + [v]) && Elements(s + [v]) == Elements(s) + {v} && Elements(s + [v]) - {v} == Elements(s)
  {}

  /** A sequence has as many elements as positions exactly when none repeats. */
  lemma {:induction false} DistinctCount(s: seq<string>)
    ensures |Elements(s)| <= |s|
    ensures |Elements(s)| == |s| <==> Distinct(s)
  {
    if s != [] {
      var init, last := s[..|s| - 1], s[|s| - 1];
      DistinctCount(init);
      assert s == init + [last];
      assert Elements(s) == Elements(init) + {last};
      if last in init {
        assert Elements(s) == Elements(init);
      }
    }
  }

  /** A closed walk: the last element steps back to the first. */
  ghost predicate IsCycle<V>(r: set<(V, V)>, c: seq<V>) {
    IsWalk(r, c) && (c[|c| - 1], c[0]) in r
  }

  ghost predicate OnSimpleCycle<V(!new)>(r: set<(V, V)>, v: V) {
    exists c :: IsCycle(r, c) && Distinct(c) && v in c
  }

  ghost predicate Acyclic<V(!new)>(r: set<(V, V)>) {
    forall c :: !IsCycle(r, c)
  }

  ghost predicate Closed<V>(r: set<(V, V)>, s: set<V>) {
    forall p :: p in r && p.0 in s ==> p.1 in s
  }

  lemma ReachesSelf<V(!new)>(r: set<(V, V)>, a: V)
    ensures Reaches(r, a, a)
  {
    assert WalkFromTo(r, [a], a, a);
  }

  lemma WalkSegment<V(!new)>(r: set<(V, V)>, w: seq<V>, i: nat, j: nat)
    requires IsWalk(r, w) && i <= j < |w|
    ensures IsWalk(r, w[i..j + 1]) && Reaches(r, w[i], w[j])
  {
    var s := w[i..j + 1];
    forall k | 0 <= k < |s| - 1
      ensures (s[k], s[k + 1]) in r
    {
      assert (w[i + k], w[i + k + 1]) in r;
    }
    assert WalkFromTo(r, s, w[i], w[j]);
  }

  lemma ReachesTrans<V(!new)>(r: set<(V, V)>, a: V, b: V, c: V)
    requires Reaches(r, a, b) && Reaches(r, b, c)
    ensures Reaches(r, a, c)
  {
    var p :| WalkFromTo(r, p, a, b);
    var q :| WalkFromTo(r, q, b, c);
    var w := p + q[1..];
    forall i | 0 <= i < |w| - 1
      ensures (w[i], w[i + 1]) in r
    {
      if i >= |p| - 1 {
        assert w[i] == q[i - (|p| - 1)];
        assert w[i + 1] == q[i + 1 - (|p| - 1)];
      }
    }
    assert WalkFromTo(r, w, a, c);
  }

  lemma ReachesEdge<V(!new)>(r: set<(V, V)>, a: V, b: V)
    requires (a, b) in r
    ensures Reaches(r, a, b)
  {
    assert WalkFromTo(r, [a, b], a, b);
  }

  lemma ReachesStep<V(!new)>(r: set<(V, V)>, a: V, b: V, c: V)
    requires Reaches(r, a, b) && (b, c) in r
    ensures Reaches(r, a, c)
  {
    ReachesEdge(r, b, c);
    ReachesTrans(r, a, b, c);
  }

  /** A closed set holds everything reachable from its members. */
  lemma {:induction false} WalkStaysIn<V(!new)>(r: set<(V, V)>, s: set<V>, w: seq<V>, k: nat)
    requires IsWalk(r, w) && k < |w| && w[0] in s && Closed(r, s)
    ensures w[k] in s
  {
    if k > 0 {
      WalkStaysIn(r, s, w, k - 1);
      assert (w[k - 1], w[k - 1 + 1]) in r;
    }
  }

  lemma ReachesStaysIn<V(!new)>(r: set<(V, V)>, s: set<V>, a: V, b: V)
    requires a in s && Closed(r, s) && Reaches(r, a, b)
    ensures b in s
  {
    var w :| WalkFromTo(r, w, a, b);
    WalkStaysIn(r, s, w, |w| - 1);
  }

  lemma ReachesMonotone<V(!new)>(r: set<(V, V)>, q: set<(V, V)>, a: V, b: V)
    requires r <= q && Reaches(r, a, b)
    ensures Reaches(q, a, b)
  {
    var w :| WalkFromTo(r, w, a, b);
    assert WalkFromTo(q, w, a, b);
  }

  /** Each node of a cycle has a predecessor on the cycle. */
  lemma CyclePredecessor<V(!new)>(r: set<(V, V)>, c: seq<V>, v: V) returns (p: V)
    requires IsCycle(r, c) && v in c
    ensures p in c && (p, v) in r
  {
    var i :| 0 <= i < |c| && c[i] == v;
    if i == 0 {
      p := c[|c| - 1];
    } else {
      p := c[i - 1];
      assert (c[i - 1], c[i - 1 + 1]) in r;
    }
  }

  /** A simple cycle may be read from any of its nodes. */
  lemma RotateSimpleCycle<V(!new)>(r: set<(V, V)>, c: seq<V>, k: nat)
    requires IsCycle(r, c) && Distinct(c) && k < |c|
    ensures IsCycle(r, c[k..] + c[..k]) && Distinct(c[k..] + c[..k])
  {
    var n, d := |c|, c[k..] + c[..k];
    forall i | 0 <= i < n - 1 ensures (d[i], d[i + 1]) in r {
      if i + k + 1 < n {
        assert (c[i + k], c[i + k + 1]) in r;
      } else if i + k >= n {
        assert (c[i + k - n], c[i + k - n + 1]) in r;
      }
    }
    if k > 0 {
      assert (c[k - 1], c[k - 1 + 1]) in r;
    }
    forall i, j | 0 <= i < j < n ensures d[i] != d[j] {
      assert d[i] == c[if i + k < n then i + k else i + k - n];
      assert d[j] == c[if j + k < n then j + k else j + k - n];
    }
  }

  /** Two simple walks without common elements, each leading to the other, make a simple cycle. */
  lemma JoinedCycle<V(!new)>(r: set<(V, V)>, a: seq<V>, b: seq<V>)
    requires IsWalk(r, a) && IsWalk(r, b) && (a[|a| - 1], b[0]) in r && (b[|b| - 1], a[0]) in r
    requires Distinct(a) && Distinct(b) && forall i, j :: 0 <= i < |a| && 0 <= j < |b| ==> a[i] != b[j]
    ensures IsCycle(r, a + b) && Distinct(a + b)
  {
    var c := a + b;
    forall k | 0 <= k < |c| - 1 ensures (c[k], c[k + 1]) in r {
      if k < |a| - 1 {
        assert (a[k], a[k + 1]) in r;
      } else if k >= |a| {
        assert (b[k - |a|], b[k - |a| + 1]) in r;
      }
    }
  }

  /** Leaving out the detours of a walk. */
  lemma {:induction false} SimpleWalk<V(!new)>(r: set<(V, V)>, w: seq<V>) returns (u: seq<V>)
    requires IsWalk(r, w)
    ensures IsWalk(r, u) && Distinct(u) && u[0] == w[0] && u[|u| - 1] == w[|w| - 1]
    ensures forall v :: v in u ==> v in w
    decreases |w|
  {
    if Distinct(w) {
      u := w;
    } else {
      var i, j :| 0 <= i < j < |w| && w[i] == w[j];
      var shorter := w[..i] + w[j..];
      forall k | 0 <= k < |shorter| - 1 ensures (shorter[k], shorter[k + 1]) in r {
        if k < i {
          assert (w[k], w[k + 1]) in r;
        } else {
          assert (w[k + j - i], w[k + j - i + 1]) in r;
        }
      }
      u := SimpleWalk(r, shorter);
    }
  }

  /** A walk that leaves the end of a simple one, avoids it and comes back to x on it starts on a simple cycle. */
  lemma ClosedThrough<V(!new)>(r: set<(V, V)>, stack: seq<V>, w: seq<V>, x: V)
    requires IsWalk(r, stack) && Distinct(stack) && IsWalk(r, w) && (stack[|stack| - 1], w[0]) in r
    requires x in stack && (w[|w| - 1], x) in r && forall v :: v in stack ==> v !in w
    ensures OnSimpleCycle(r, w[0])
  {
    var i: nat :| i < |stack| && stack[i] == x;
    var u := SimpleWalk(r, w);
    WalkSegment(r, stack, i, |stack| - 1);
    var head := stack[i..|stack| - 1 + 1];
    assert head[|head| - 1] == stack[|stack| - 1] && head[0] == x;
    forall a, b | 0 <= a < |head| && 0 <= b < |u| ensures head[a] != u[b] {
      assert head[a] == stack[i + a] && stack[i + a] in stack && u[b] in w;
    }
    assert Distinct(head);
    JoinedCycle(r, head, u);
    assert (head + u)[|head|] == w[0];
  }

  /** From any node of a cycle every node of it is reachable. */
  lemma CycleReaches<V(!new)>(r: set<(V, V)>, c: seq<V>, a: V, b: V)
    requires IsCycle(r, c) && a in c && b in c
    ensures Reaches(r, a, b)
  {
    var i :| 0 <= i < |c| && c[i] == a;
    var j :| 0 <= j < |c| && c[j] == b;
    WalkSegment(r, c, i, |c| - 1);
    WalkSegment(r, c, 0, j);
    ReachesStep(r, a, c[|c| - 1], c[0]);
    ReachesTrans(r, a, c[0], b);
  }

  ghost function Inverse<V>(r: set<(V, V)>): set<(V, V)> {
    set p | p in r :: (p.1, p.0)
  }

  lemma {:induction false} InverseWalk<V(!new)>(r: set<(V, V)>, w: seq<V>)
    requires IsWalk(r, w)
    ensures Reaches(Inverse(r), w[|w| - 1], w[0])
  {
    if |w| == 1 {
      ReachesSelf(Inverse(r), w[0]);
    } else {
      var v := w[1..];
      forall i | 0 <= i < |v| - 1 ensures (v[i], v[i + 1]) in r {
        assert (w[i + 1], w[i + 1 + 1]) in r;
      }
      InverseWalk(r, v);
      assert (w[0], w[0 + 1]) in r;
      assert (w[1], w[0]) in Inverse(r);
      ReachesStep(Inverse(r), w[|w| - 1], w[1], w[0]);
    }
  }

  /** Searching backwards from b finds a exactly when a leads to b. */
  lemma ReachesInverse<V(!new)>(r: set<(V, V)>, a: V, b: V)
    ensures Reaches(r, a, b) <==> Reaches(Inverse(r), b, a)
  {
    if Reaches(r, a, b) {
      var w :| WalkFromTo(r, w, a, b);
      InverseWalk(r, w);
    }
    if Reaches(Inverse(r), b, a) {
      var w :| WalkFromTo(Inverse(r), w, b, a);
      InverseWalk(Inverse(r), w);
      assert Inverse(Inverse(r)) == r by {
        forall p | p in r ensures p in Inverse(Inverse(r)) {
          assert (p.1, p.0) in Inverse(r);
        }
      }
    }
  }

  /** Walking backwards without repetition must end where nothing leads in. */
  lemma {:induction false} Backtrack<V(!new)>(r: set<(V, V)>, w: seq<V>, unseen: set<V>) returns (s: V)
    requires IsWalk(r, w) && Acyclic(r) && (forall v :: v in w ==> v !in unseen)
    requires forall p :: p in r ==> p.0 in unseen || p.0 in w
    ensures Reaches(r, s, w[|w| - 1]) && forall p :: p in r ==> p.1 != s
    decreases unseen
  {
    if p :| p in r && p.1 == w[0] {
      if p.0 in w {
        var i :| 0 <= i < |w| && w[i] == p.0;
        WalkSegment(r, w, 0, i);
        assert IsCycle(r, w[0..i + 1]);
        assert false;
      }
      var longer := [p.0] + w;
      assert IsWalk(r, longer) by {
        forall i | 0 <= i < |longer| - 1 ensures (longer[i], longer[i + 1]) in r {
          if i > 0 {
            assert (w[i - 1], w[i - 1 + 1]) in r;
          }
        }
      }
      s := Backtrack(r, longer, unseen - {p.0});
    } else {
      s := w[0];
      WalkSegment(r, w, 0, |w| - 1);
    }
  }

  /** In an acyclic relation everything is reached from something without predecessors. */
  lemma AcyclicHasSource<V(!new)>(r: set<(V, V)>, v: V) returns (s: V)
    requires Acyclic(r)
    ensures Reaches(r, s, v) && forall p :: p in r ==> p.1 != s
  {
    var unseen := (set p | p in r :: p.0) - {v};
    s := Backtrack(r, [v], unseen);
  }

  // ----- Worklist searches

  /** Every visited element is reachable from `start`, and the steps out of `done` stay within `visited`. */
  ghost predicate Explores<V(!new)>(r: set<(V, V)>, start: V, visited: set<V>, done: set<V>) {
    && start in visited && done <= visited
    && (forall x :: x in visited ==> Reaches(r, start, x))
    && (forall p :: p in r && p.0 in done ==> p.1 in visited)
  }

  lemma ExploresStart<V(!new)>(r: set<(V, V)>, start: V)
    ensures Explores(r, start, {start}, {})
  {
    ReachesSelf(r, start);
  }

  lemma ExploreStep<V(!new)>(r: set<(V, V)>, start: V, visited: set<V>, done: set<V>, cur: V, next: V)
    requires Explores(r, start, visited, done) && cur in visited && (cur, next) in r
    ensures Explores(r, start, visited + {next}, done)
  {
    ReachesStep(r, start, cur, next);
  }

  /** When nothing is left to expand, the visited elements are exactly the reachable ones. */
  lemma ExploredAll<V(!new)>(r: set<(V, V)>, start: V, visited: set<V>)
    requires Explores(r, start, visited, visited)
    ensures forall x :: x in visited <==> Reaches(r, start, x)
  {
    forall x | Reaches(r, start, x) ensures x in visited {
      ReachesStaysIn(r, visited, start, x);
    }
  }
}
