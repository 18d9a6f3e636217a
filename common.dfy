/** Small value types shared by every module of the model. */
module Common {

  /** JavaScript's `null`/`undefined` results, as an explicit option. */
  datatype Option<+T> = None | Some(value: T)

  /** A JavaScript number that may be `Infinity` (used for distances). */
  datatype Ext = Fin(r: real) | Inf {
    predicate Less(other: Ext) {
      match (this, other)
      case (Fin(a), Fin(b)) => a < b
      case (Fin(_), Inf) => true
      case (Inf, _) => false
    }
  }

  function Min(a: int, b: int): (m: int)
    ensures m <= a && m <= b && (m == a || m == b)
  {
    if a <= b then a else b
  }

  function Max(a: int, b: int): (m: int)
    ensures m >= a && m >= b && (m == a || m == b)
  {
    if a >= b then a else b
  }

  function MaxR(a: real, b: real): (m: real)
    ensures m >= a && m >= b && (m == a || m == b)
  {
    if a >= b then a else b
  }

  /** JavaScript `Math.ceil` and `Math.floor` on a real. */
  function Floor(x: real): int { x.Floor }

  function Ceil(x: real): (c: int)
    ensures c as real >= x && (c as real) - 1.0 < x
  {
    -((-x).Floor)
  }

  /** A prefix one longer is the shorter prefix and the next element. */
  lemma TakeNext<T>(s: seq<T>, i: nat)
    requires i < |s|
    ensures s[..i] + [s[i]] == s[..i + 1]
  {
    assert |s[..i] + [s[i]]| == |s[..i + 1]|;
  }

  /** Replacing one element splits the sequence around it. */
  lemma UpdateAt<T>(s: seq<T>, j: nat, x: T)
    requires j < |s|
    ensures s[j := x] == s[..j] + ([x] + s[j + 1..])
  {
  }

  /** The element at `j` can move from the rest onto the prefix. */
  lemma PrefixGrows<T>(s: seq<T>, j: nat, rest: seq<T>)
    requires j < |s|
    ensures s[..j] + ([s[j]] + rest) == s[..j + 1] + rest
  {
    assert s[..j + 1] == s[..j] + [s[j]];
  }

  /** Concatenation regroups freely. */
  lemma SeqAssoc<T>(a: seq<T>, b: seq<T>, c: seq<T>)
    ensures (a + b) + c == a + (b + c)
  {
  }

  /** Adding a new element to a set makes it one larger. */
  lemma AddFresh<T>(s: set<T>, x: T)
    requires x !in s
    ensures |s + {x}| == |s| + 1
  {
    assert s * {x} == {};
  }

  /** Removing a member of a set makes it one smaller. */
  lemma RemoveMember<T>(s: set<T>, x: T)
    requires x in s
    ensures |s - {x}| == |s| - 1
  {
    var r := s - {x};
    assert r + {x} == s;
    AddFresh(r, x);
  }
}
