/**
 * The distance `Trie._fuzzySearch` carries down a path: it counts the
 * characters of the path that differ from the query at the same position,
 * lower-cased, or that run past the query's end.
 */
module TrieFuzzy {
  import opened Common
  import opened Text
  import opened TrieNodes
  import opened TrieCollect

  /** `{ word, data, distance }`, one result of a fuzzy search. */
  datatype Match<D> = Match(word: string, data: Option<Payload<D>>, distance: int)

  /** The test of `_fuzzySearch`: the character `c` at position `i` adds nothing when it is the query's character there, lower-cased, and one otherwise. */
  function Step(i: nat, c: char, word: string): (d: nat)
    ensures d == 0 <==> i < |word| && c == LowerChar(word[i])
    ensures d <= 1
  {
    if i < |word| && c == LowerChar(word[i]) then 0 else 1
  }

  /** The steps of the first `n` characters of `q`, added up. */
  function MismatchBelow(q: string, word: string, n: nat): nat
    requires n <= |q|
  {
    if n == 0 then 0 else MismatchBelow(q, word, n - 1) + Step(n - 1, q[n - 1], word)
  }

  /** The distance `_fuzzySearch` carries for the path `q`. */
  function Mismatch(q: string, word: string): nat {
    MismatchBelow(q, word, |q|)
  }

  /** Positions shared by two paths count alike. */
  lemma {:induction false} MismatchBelowSame(q: string, r: string, word: string, n: nat)
    requires n <= |q| && n <= |r| && q[..n] == r[..n]
    ensures MismatchBelow(q, word, n) == MismatchBelow(r, word, n)
  {
    if n > 0 {
      assert q[n - 1] == q[..n][n - 1] == r[..n][n - 1] == r[n - 1];
      assert q[..n - 1] == q[..n][..n - 1];
      assert r[..n - 1] == r[..n][..n - 1];
      MismatchBelowSame(q, r, word, n - 1);
    }
  }

  /** One more character adds its own step to the distance: the `distance + 1` or `distance` of the recursive call. */
  lemma {:induction false} MismatchNext(p: string, c: char, word: string)
    ensures Mismatch(p + [c], word) == Mismatch(p, word) + Step(|p|, c, word)
  {
    assert (p + [c])[..|p|] == p[..|p|];
    MismatchBelowSame(p + [c], p, word, |p|);
  }

  /** Counting stops growing once the positions stop. */
  lemma {:induction false} MismatchBelowGrows(q: string, word: string, k: nat, n: nat)
    requires k <= n <= |q|
    ensures MismatchBelow(q, word, k) <= MismatchBelow(q, word, n)
    decreases n
  {
    if k < n {
      MismatchBelowGrows(q, word, k, n - 1);
    }
  }

  /** The distance never shrinks along a path, so a branch past the bound holds nothing within it. */
  lemma {:induction false} MismatchGrows(q: string, k: nat, word: string)
    requires k <= |q|
    ensures Mismatch(q[..k], word) <= Mismatch(q, word)
  {
    assert q[..k][..k] == q[..k];
    MismatchBelowSame(q[..k], q, word, k);
    MismatchBelowGrows(q, word, k, |q|);
  }

  /** The distance of the first `n` positions is at most `n`. */
  lemma {:induction false} MismatchBelowAtMost(q: string, word: string, n: nat)
    requires n <= |q|
    ensures MismatchBelow(q, word, n) <= n
    decreases n
  {
    if n > 0 {
      MismatchBelowAtMost(q, word, n - 1);
    }
  }

  /** A path is never further from the query than its own length. */
  lemma MismatchAtMost(q: string, word: string)
    ensures Mismatch(q, word) <= |q|
  {
    MismatchBelowAtMost(q, word, |q|);
  }

  /** The first `n` positions are at distance 0 exactly when they agree with the lower-cased query. */
  lemma {:induction false} MismatchBelowZero(q: string, word: string, n: nat)
    requires n <= |q|
    ensures MismatchBelow(q, word, n) == 0 <==> n <= |word| && forall i :: 0 <= i < n ==> q[i] == LowerChar(word[i])
    decreases n
  {
    if n > 0 {
      MismatchBelowZero(q, word, n - 1);
    }
  }

  /** A path is at distance 0 exactly when it is a prefix of the lower-cased query. */
  lemma {:induction false} MismatchZero(q: string, word: string)
    ensures Mismatch(q, word) == 0 <==> IsPrefix(q, Lower(word))
  {
    MismatchBelowZero(q, word, |q|);
    if IsPrefix(q, Lower(word)) {
      forall i | 0 <= i < |q| ensures q[i] == LowerChar(word[i]) {
        assert q[i] == Lower(word)[..|q|][i];
      }
    }
    if Mismatch(q, word) == 0 {
      assert Lower(word)[..|q|] == q;
    }
  }

  /** A result for a stored word: its path, its data, and its distance from the query, which is within the bound. */
  ghost predicate Near<D>(nodes: Nodes<D>, word: string, maxDistance: int, m: Match<D>) {
    m.word in Words(nodes) && m.data == nodes[m.word].data &&
    m.distance == Mismatch(m.word, word) <= maxDistance
  }

  /** The result `_fuzzySearch` pushes for the stored word `q`. */
  function MatchFor<D>(nodes: Nodes<D>, word: string, q: string): (m: Match<D>)
    requires q in nodes
    ensures m.word == q && m.distance == Mismatch(q, word)
  {
    Match(q, nodes[q].data, Mismatch(q, word))
  }

  /** `q` is `p`, or lies below one of the children of `p` listed in `done`. */
  ghost predicate Covered(p: string, done: seq<char>, q: string) {
    q == p || (IsPrefix(p, q) && |p| < |q| && q[|p|] in done)
  }

  /** What is in the results from position `k` on stays there when the results grow or `k` moves back. */
  lemma InTail<T>(a: seq<T>, b: seq<T>, j: nat, k: nat, x: T)
    requires a <= b && j <= k <= |a| && x in a[k..]
    ensures x in b[j..]
  {
    var i :| 0 <= i < |a[k..]| && a[k..][i] == x;
    assert b[j..][k - j + i] == x;
  }

  /** The results from position `k` on are stored words below `p` within the bound, with their data and distance. */
  ghost predicate AllNear<D>(nodes: Nodes<D>, word: string, maxDistance: int, p: string, s: seq<Match<D>>, k: nat) {
    forall i :: k <= i < |s| ==> Near(nodes, word, maxDistance, s[i]) && IsPrefix(p, s[i].word)
  }

  /** Results below a child of `p` are results below `p`. */
  lemma {:induction false} AllNearJoin<D>(nodes: Nodes<D>, word: string, maxDistance: int, p: string, c: char,
                                          before: seq<Match<D>>, out: seq<Match<D>>, k: nat)
    requires before <= out && k <= |before|
    requires AllNear(nodes, word, maxDistance, p, before, k)
    requires AllNear(nodes, word, maxDistance, p + [c], out, |before|)
    ensures AllNear(nodes, word, maxDistance, p, out, k)
  {
    forall i | k <= i < |out| ensures Near(nodes, word, maxDistance, out[i]) && IsPrefix(p, out[i].word) {
      if i < |before| {
        assert out[i] == before[i];
      } else {
        assert out[i].word[..|p|] == out[i].word[..|p| + 1][..|p|];
      }
    }
  }

  /** Every stored word below `p` within the bound is among the results from position `k` on. */
  ghost predicate AllFound<D>(nodes: Nodes<D>, word: string, maxDistance: int, p: string, s: seq<Match<D>>, k: nat) {
    k <= |s| &&
    forall q :: q in Words(nodes) && IsPrefix(p, q) && Mismatch(q, word) <= maxDistance ==> MatchFor(nodes, word, q) in s[k..]
  }

  /** Every stored word within the bound that is `p` or lies below a child of `p` in `done` is among the results from position `k` on. */
  ghost predicate CoveredFound<D>(nodes: Nodes<D>, word: string, maxDistance: int, p: string, done: seq<char>,
                                  s: seq<Match<D>>, k: nat) {
    k <= |s| &&
    forall q :: q in Words(nodes) && Covered(p, done, q) && Mismatch(q, word) <= maxDistance ==> MatchFor(nodes, word, q) in s[k..]
  }

  /** Once the walk below the next child is done, that child is covered too. */
  lemma {:induction false} CoveredFoundJoin<D>(nodes: Nodes<D>, word: string, maxDistance: int, p: string, cs: seq<char>, j: nat,
                                               before: seq<Match<D>>, out: seq<Match<D>>, k: nat)
    requires Linked(nodes) && p in nodes && j < |cs|
    requires before <= out && k <= |before|
    requires CoveredFound(nodes, word, maxDistance, p, cs[..j], before, k)
    requires AllFound(nodes, word, maxDistance, p + [cs[j]], out, |before|)
    ensures CoveredFound(nodes, word, maxDistance, p, cs[..j + 1], out, k)
  {
    forall q | q in Words(nodes) && Covered(p, cs[..j + 1], q) && Mismatch(q, word) <= maxDistance
      ensures MatchFor(nodes, word, q) in out[k..]
    {
      if Covered(p, cs[..j], q) {
        InTail(before, out, k, k, MatchFor(nodes, word, q));
      } else {
        assert q[|p|] == cs[j] by {
          assert q[|p|] in cs[..j + 1];
        }
        ChildOnWay(nodes, p, q);
        InTail(out, out, k, |before|, MatchFor(nodes, word, q));
      }
    }
  }

  /** Once every child is covered, every word below `p` is. */
  lemma {:induction false} CoveredAll<D>(nodes: Nodes<D>, word: string, maxDistance: int, p: string, s: seq<Match<D>>, k: nat)
    requires Linked(nodes) && p in nodes
    requires CoveredFound(nodes, word, maxDistance, p, nodes[p].keys, s, k)
    ensures AllFound(nodes, word, maxDistance, p, s, k)
  {
    forall q | q in Words(nodes) && IsPrefix(p, q) && Mismatch(q, word) <= maxDistance
      ensures MatchFor(nodes, word, q) in s[k..]
    {
      if q != p {
        ChildOnWay(nodes, p, q);
      }
      assert Covered(p, nodes[p].keys, q);
    }
  }

  /** What the node at `p` pushes for itself: its own word when it ends one, and so far no child is covered. */
  lemma {:induction false} VisitStart<D>(nodes: Nodes<D>, word: string, maxDistance: int, p: string, results: seq<Match<D>>)
    requires p in nodes && Mismatch(p, word) <= maxDistance
    ensures var out := if nodes[p].isEndOfWord then results + [MatchFor(nodes, word, p)] else results;
      AllNear(nodes, word, maxDistance, p, out, |results|) &&
      CoveredFound(nodes, word, maxDistance, p, [], out, |results|)
  {
    var out := if nodes[p].isEndOfWord then results + [MatchFor(nodes, word, p)] else results;
    assert IsPrefix(p, p);
    if nodes[p].isEndOfWord {
      assert out[|results|..][0] == MatchFor(nodes, word, p);
    }
    forall q | Covered(p, [], q) ensures q == p {
    }
  }
}
