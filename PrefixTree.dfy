/**
 * The prefix tree used to look up roman letter sequences: a tree keyed by
 * sequences of `T` whose nodes may carry a payload of type `P`.
 */
module PrefixTree {
  import opened Wrappers

  /** The tree itself: empty, an interior node with branches and an optional
    * payload, or a leaf holding a payload. */
  datatype Tree<T(==), P> =
    | Empty
    | Interior(branches: map<T, Tree<T, P>>, payload: Option<P>)
    | Leaf(value: P)

  /** A payload together with the number of path components read before it. */
  datatype PositionedPayload<P> = PositionedPayload(payload: P, position: nat)

  /** The subtree reached by following `path`, if the walk never leaves the tree. */
  function Descend<T, P>(t: Tree<T, P>, path: seq<T>): Option<Tree<T, P>>
    decreases path
  {
    if path == [] then Some(t)
    else match t
      case Interior(branches, _) =>
        if path[0] in branches then Descend(branches[path[0]], path[1..]) else None
      case _ => None
  }

  /** The payload held by a node reached during a walk, if any. */
  function PayloadAt<T, P>(node: Option<Tree<T, P>>): Option<P>
  {
    match node
    case Some(Interior(_, payload)) => payload
    case Some(Leaf(value)) => Some(value)
    case _ => None
  }

  /** The payload stored under exactly `path` (the subscript getter). */
  function Get<T, P>(t: Tree<T, P>, path: seq<T>): Option<P>
  {
    PayloadAt(Descend(t, path))
  }

  /** Walking `p + q` is walking `p`, then walking `q` from where `p` ended. */
  lemma {:induction false} DescendAppend<T, P>(t: Tree<T, P>, p: seq<T>, q: seq<T>)
    ensures Descend(t, p + q) == match Descend(t, p) case Some(n) => Descend(n, q) case None => None
    decreases p
  {
    if p == [] {
      assert p + q == q;
    } else {
      assert (p + q)[0] == p[0] && (p + q)[1..] == p[1..] + q;
      match t
      case Interior(branches, _) =>
        if p[0] in branches {
          DescendAppend(branches[p[0]], p[1..], q);
        }
      case _ =>
    }
  }

  /** Looking one component deeper below an interior node. */
  lemma DescendSnoc<T, P>(t: Tree<T, P>, path: seq<T>, i: nat)
    requires i < |path|
    ensures Descend(t, path[..i + 1]) ==
      match Descend(t, path[..i])
      case Some(Interior(branches, _)) => if path[i] in branches then Some(branches[path[i]]) else None
      case _ => None
  {
    assert path[..i + 1] == path[..i] + [path[i]];
    DescendAppend(t, path[..i], [path[i]]);
  }

  /** Once a walk reaches something other than an interior node, every longer
    * walk leaves the tree. */
  lemma DeadEnd<T, P>(t: Tree<T, P>, path: seq<T>, i: nat, j: nat)
    requires i < j <= |path|
    requires !(Descend(t, path[..i]).Some? && Descend(t, path[..i]).value.Interior?)
    ensures Descend(t, path[..j]) == None
  {
    assert path[..j] == path[..i] + path[i..j];
    DescendAppend(t, path[..i], path[i..j]);
  }

  /** The subscript getter as the loop the source runs. */
  method Lookup<T, P>(t: Tree<T, P>, path: seq<T>) returns (r: Option<P>)
    ensures r == Get(t, path)
  {
    var tree: Option<Tree<T, P>> := Some(t);
    var i := 0;
    while i < |path|
      invariant 0 <= i <= |path|
      invariant tree == Descend(t, path[..i])
    {
      DescendSnoc(t, path, i);
      match tree {
        case Some(Interior(branches, _)) =>
          tree := if path[i] in branches then Some(branches[path[i]]) else None;
        case _ =>
          DeadEnd(t, path, i, |path|);
          assert path[..|path|] == path;
          return None;
      }
      i := i + 1;
    }
    assert path[..i] == path;
    match tree {
      case Some(Interior(_, payload)) => r := payload;
      case Some(Leaf(value)) => r := Some(value);
      case _ => r := None;
    }
  }

  /** The payloads met along `path` at positions below `n`, in order. */
  ghost function Matches<T, P>(t: Tree<T, P>, path: seq<T>, n: nat): seq<PositionedPayload<P>>
    requires n <= |path| + 1
  {
    if n == 0 then []
    else Matches(t, path, n - 1) + Hit(Get(t, path[..n - 1]), n - 1)
  }

  /** The entry a lookup contributes at `position`: one if it found a payload. */
  function Hit<P>(found: Option<P>, position: nat): seq<PositionedPayload<P>>
  {
    match found
    case Some(v) => [PositionedPayload(v, position)]
    case None => []
  }

  /** No payload is reachable past the position where a walk stops. */
  lemma {:induction false} MatchesSettle<T, P>(t: Tree<T, P>, path: seq<T>, i: nat, n: nat)
    requires i < n <= |path| + 1
    requires forall j :: i < j <= |path| ==> Descend(t, path[..j]) == None
    ensures Matches(t, path, n) == Matches(t, path, i + 1)
    decreases n
  {
    if n > i + 1 {
      MatchesSettle(t, path, i, n - 1);
      assert Descend(t, path[..n - 1]) == None;
    }
  }

  /** Every payload on the walk along `path`, with the position it was found at. */
  method AllPayloads<T, P>(t: Tree<T, P>, path: seq<T>) returns (payloads: seq<PositionedPayload<P>>)
    ensures payloads == Matches(t, path, |path| + 1)
  {
    payloads := [];
    var tree: Option<Tree<T, P>> := Some(t);
    var position := 0;
    while position < |path|
      invariant 0 <= position <= |path|
      invariant tree == Descend(t, path[..position])
      invariant payloads == Matches(t, path, position)
    {
      DescendSnoc(t, path, position);
      match tree {
        case Some(Interior(branches, payload)) =>
          tree := if path[position] in branches then Some(branches[path[position]]) else None;
          if payload.Some? {
            payloads := payloads + [PositionedPayload(payload.value, position)];
          }
        case Some(Leaf(value)) =>
          payloads := payloads + [PositionedPayload(value, position)];
          forall j | position < j <= |path| ensures Descend(t, path[..j]) == None {
            DeadEnd(t, path, position, j);
          }
          MatchesSettle(t, path, position, |path| + 1);
          return;
        case _ =>
          forall j | position < j <= |path| ensures Descend(t, path[..j]) == None {
            DeadEnd(t, path, position, j);
          }
          MatchesSettle(t, path, position, |path| + 1);
          return;
      }
      position := position + 1;
    }
    assert path[..position] == path;
    match tree {
      case Some(Interior(_, payload)) =>
        if payload.Some? {
          payloads := payloads + [PositionedPayload(payload.value, position)];
        }
      case Some(Leaf(value)) =>
        payloads := payloads + [PositionedPayload(value, position)];
      case _ =>
    }
  }

  /** What `Matches` lists: exactly the prefixes of `path` (shorter than `n`)
    * holding a payload, in increasing order of length. */
  lemma MatchesCharacterized<T, P>(t: Tree<T, P>, path: seq<T>, n: nat)
    requires n <= |path| + 1
    ensures var m := Matches(t, path, n);
      (forall i :: 0 <= i < |m| ==> m[i].position < n && Get(t, path[..m[i].position]) == Some(m[i].payload))
      && (forall i, j :: 0 <= i < j < |m| ==> m[i].position < m[j].position)
      && (forall k :: 0 <= k < n && Get(t, path[..k]).Some? ==> PositionedPayload(Get(t, path[..k]).value, k) in m)
  {
    MatchesSound(t, path, n);
    MatchesOrdered(t, path, n);
    MatchesComplete(t, path, n);
  }

  /** Every payload `Matches` lists is found at its position. */
  lemma {:induction false} MatchesSound<T, P>(t: Tree<T, P>, path: seq<T>, n: nat)
    requires n <= |path| + 1
    ensures forall i :: 0 <= i < |Matches(t, path, n)| ==>
      Matches(t, path, n)[i].position < n
      && Get(t, path[..Matches(t, path, n)[i].position]) == Some(Matches(t, path, n)[i].payload)
    decreases n
  {
    if n > 0 {
      MatchesSound(t, path, n - 1);
    }
  }

  /** `Matches` lists positions in increasing order. */
  lemma {:induction false} MatchesOrdered<T, P>(t: Tree<T, P>, path: seq<T>, n: nat)
    requires n <= |path| + 1
    ensures forall i, j :: 0 <= i < j < |Matches(t, path, n)| ==>
      Matches(t, path, n)[i].position < Matches(t, path, n)[j].position
    decreases n
  {
    if n > 0 {
      MatchesOrdered(t, path, n - 1);
      MatchesSound(t, path, n - 1);
    }
  }

  /** `Matches` lists every prefix that holds a payload. */
  lemma {:induction false} MatchesComplete<T, P>(t: Tree<T, P>, path: seq<T>, n: nat)
    requires n <= |path| + 1
    ensures forall k :: 0 <= k < n && Get(t, path[..k]).Some? ==>
      PositionedPayload(Get(t, path[..k]).value, k) in Matches(t, path, n)
    decreases n
  {
    if n > 0 {
      MatchesComplete(t, path, n - 1);
    }
  }

  /** The last payload found along `path` belongs to its longest prefix that
    * holds a payload. */
  lemma LastMatchIsLongest<T, P>(t: Tree<T, P>, path: seq<T>)
    requires Matches(t, path, |path| + 1) != []
    ensures var m := Matches(t, path, |path| + 1); var last := m[|m| - 1];
      last.position <= |path| && Get(t, path[..last.position]) == Some(last.payload)
      && forall k :: last.position < k <= |path| ==> Get(t, path[..k]) == None
  {
    var m := Matches(t, path, |path| + 1);
    MatchesCharacterized(t, path, |path| + 1);
    var last := m[|m| - 1];
    assert forall i :: 0 <= i < |m| ==> m[i].position <= last.position;
  }

  /** How two optional payloads meeting at one node are resolved by `Merge`. */
  function Combine<P>(left: Option<P>, right: Option<P>, onConflict: (P, P) -> P): Option<P>
  {
    if left.None? then right
    else if right.None? then left
    else Some(onConflict(left.value, right.value))
  }

  /** Merge two trees; `onConflict` receives the receiver's payload, then the other's. */
  function Merge<T, P>(t: Tree<T, P>, other: Tree<T, P>, onConflict: (P, P) -> P): Tree<T, P>
  {
    match (t, other)
    case (Empty, _) => other
    case (_, Empty) => t
    case (Leaf(p1), Leaf(p2)) => Leaf(onConflict(p1, p2))
    case (Leaf(p1), Interior(branches, p2)) =>
      if p2.None? then Interior(branches, Some(p1))
      else Interior(branches, Some(onConflict(p1, p2.value)))
    case (Interior(branches, p1), Leaf(p2)) =>
      if p1.None? then Interior(branches, Some(p2))
      else Interior(branches, Some(onConflict(p1.value, p2)))
    case (Interior(b1, p1), Interior(b2, p2)) =>
      var merged := map k | k in b1.Keys + b2.Keys ::
        if k in b1 && k in b2 then Merge(b1[k], b2[k], onConflict)
        else if k in b1 then b1[k] else b2[k];
      if p1.None? then Interior(merged, p2)
      else if p2.None? then Interior(merged, p1)
      else Interior(merged, Some(onConflict(p1.value, p2.value)))
  }

  /** The default conflict resolver: the incoming payload wins. */
  function KeepNew<P>(existing: P, incoming: P): P { incoming }

  /** Looking up a non-empty path below a node is looking up the rest of the
    * path in the branch for its first component. */
  lemma GetChild<T, P>(t: Tree<T, P>, path: seq<T>)
    requires path != []
    ensures Get(t, path) ==
      match t
      case Interior(branches, _) => if path[0] in branches then Get(branches[path[0]], path[1..]) else None
      case _ => None
  {
  }

  /** Looking up a merged tree resolves the two trees' payloads at that path. */
  lemma {:induction false} GetMerge<T, P>(a: Tree<T, P>, b: Tree<T, P>, f: (P, P) -> P, path: seq<T>)
    ensures Get(Merge(a, b, f), path) == Combine(Get(a, path), Get(b, path), f)
    decreases path
  {
    if path != [] {
      GetChild(Merge(a, b, f), path);
      GetChild(a, path);
      GetChild(b, path);
      match (a, b)
      case (Interior(b1, _), Interior(b2, _)) =>
        if path[0] in b1 && path[0] in b2 {
          GetMerge(b1[path[0]], b2[path[0]], f, path[1..]);
        }
      case _ =>
    }
  }

  /** Merging with the empty tree, on either side, changes nothing. */
  lemma MergeEmpty<T, P>(t: Tree<T, P>, f: (P, P) -> P)
    ensures Merge(Empty, t, f) == t && Merge(t, Empty, f) == t
  {
  }

  /** Merging a tree with itself gives it back when the resolver keeps equal
    * payloads (as the default resolver does). */
  lemma {:induction false} MergeIdempotent<T, P>(t: Tree<T, P>, f: (P, P) -> P)
    requires forall x :: f(x, x) == x
    ensures Merge(t, t, f) == t
  {
    match t
    case Interior(branches, payload) =>
      var merged := MergeBranches(branches, branches, f);
      forall k | k in branches ensures merged[k] == branches[k] {
        MergeIdempotent(branches[k], f);
      }
      assert merged == branches;
    case _ =>
  }

  /** Two trees are disjoint when no path holds a payload in both. */
  ghost predicate Disjoint<T(!new), P>(a: Tree<T, P>, b: Tree<T, P>)
  {
    forall path :: Get(a, path) == None || Get(b, path) == None
  }

  /** Disjointness is inherited by the branches for one component. */
  lemma DisjointBranches<T(!new), P>(a: Tree<T, P>, b: Tree<T, P>, k: T)
    requires Disjoint(a, b) && a.Interior? && b.Interior? && k in a.branches && k in b.branches
    ensures Disjoint(a.branches[k], b.branches[k])
  {
    forall path ensures Get(a.branches[k], path) == None || Get(b.branches[k], path) == None {
      GetChild(a, [k] + path);
      GetChild(b, [k] + path);
      assert ([k] + path)[1..] == path;
      assert Get(a, [k] + path) == None || Get(b, [k] + path) == None;
    }
  }

  /** Without conflicts the order of a merge does not matter, whatever the resolvers. */
  lemma {:induction false} MergeCommutes<T(!new), P>(a: Tree<T, P>, b: Tree<T, P>, f: (P, P) -> P, g: (P, P) -> P)
    requires Disjoint(a, b)
    ensures Merge(a, b, f) == Merge(b, a, g)
  {
    assert Get(a, []) == None || Get(b, []) == None;
    match (a, b)
    case (Interior(b1, p1), Interior(b2, p2)) =>
      var m1 := map k | k in b1.Keys + b2.Keys ::
        if k in b1 && k in b2 then Merge(b1[k], b2[k], f) else if k in b1 then b1[k] else b2[k];
      var m2 := map k | k in b2.Keys + b1.Keys ::
        if k in b2 && k in b1 then Merge(b2[k], b1[k], g) else if k in b2 then b2[k] else b1[k];
      forall k | k in b1 && k in b2 ensures m1[k] == m2[k] {
        DisjointBranches(a, b, k);
        MergeCommutes(b1[k], b2[k], f, g);
      }
      assert m1 == m2;
    case _ =>
  }

  /** The branches of a merge of two non-empty trees (a leaf has none). */
  function Branches<T, P>(t: Tree<T, P>): map<T, Tree<T, P>>
  {
    if t.Interior? then t.branches else map[]
  }

  /** The keywise merge of two branch maps. */
  ghost function MergeBranches<T, P>(b1: map<T, Tree<T, P>>, b2: map<T, Tree<T, P>>, f: (P, P) -> P): map<T, Tree<T, P>>
  {
    map k | k in b1.Keys + b2.Keys ::
      if k in b1 && k in b2 then Merge(b1[k], b2[k], f) else if k in b1 then b1[k] else b2[k]
  }

  /** The shape of a merge of two non-empty trees that are not both leaves. */
  lemma MergeInterior<T, P>(a: Tree<T, P>, b: Tree<T, P>, f: (P, P) -> P)
    requires !a.Empty? && !b.Empty? && !(a.Leaf? && b.Leaf?)
    ensures Merge(a, b, f) == Interior(MergeBranches(Branches(a), Branches(b), f), Combine(Get(a, []), Get(b, []), f))
  {
    if a.Leaf? {
      assert MergeBranches(Branches(a), Branches(b), f) == b.branches;
    } else if b.Leaf? {
      assert MergeBranches(Branches(a), Branches(b), f) == a.branches;
    }
  }

  /** Without conflicts, merging is associative. */
  lemma {:induction false} MergeAssociates<T(!new), P>(a: Tree<T, P>, b: Tree<T, P>, c: Tree<T, P>, f: (P, P) -> P)
    requires Disjoint(a, b) && Disjoint(a, c) && Disjoint(b, c)
    ensures Merge(Merge(a, b, f), c, f) == Merge(a, Merge(b, c, f), f)
  {
    if a.Empty? || b.Empty? || c.Empty? {
      return;
    }
    assert Get(a, []) == None || Get(b, []) == None;
    assert Get(a, []) == None || Get(c, []) == None;
    assert Get(b, []) == None || Get(c, []) == None;
    var ab := Merge(a, b, f);
    var bc := Merge(b, c, f);
    MergeInterior(a, b, f);
    MergeInterior(b, c, f);
    MergeInterior(ab, c, f);
    MergeInterior(a, bc, f);
    GetMerge(a, b, f, []);
    GetMerge(b, c, f, []);
    var ba, bb, bcc := Branches(a), Branches(b), Branches(c);
    var left := MergeBranches(MergeBranches(ba, bb, f), bcc, f);
    var right := MergeBranches(ba, MergeBranches(bb, bcc, f), f);
    forall k | k in left.Keys ensures k in right && left[k] == right[k] {
      if k in ba && k in bb && k in bcc {
        DisjointBranches(a, b, k);
        DisjointBranches(a, c, k);
        DisjointBranches(b, c, k);
        MergeAssociates(ba[k], bb[k], bcc[k], f);
      }
    }
    assert left == right;
  }

  /** A tree holding exactly one path (the source's `build(path:payload:)`). */
  function Build<T, P>(path: seq<T>, payload: P): Tree<T, P>
    decreases path
  {
    if path == [] then Leaf(payload)
    else Interior(map[path[0] := Build(path[1..], payload)], None)
  }

  /** A built tree holds its payload under its path and nowhere else. */
  lemma {:induction false} GetBuild<T, P>(path: seq<T>, payload: P, q: seq<T>)
    ensures Get(Build(path, payload), q) == if q == path then Some(payload) else None
    decreases path
  {
    if q != [] {
      GetChild(Build(path, payload), q);
      if path != [] && q[0] == path[0] {
        GetBuild(path[1..], payload, q[1..]);
        assert q == path <==> q[1..] == path[1..];
      }
    }
  }

  /** A built tree is a chain of payload-free interior nodes, one branch each,
    * ending in a leaf. */
  lemma {:induction false} BuildShape<T, P>(path: seq<T>, payload: P, k: nat)
    requires k <= |path|
    ensures Descend(Build(path, payload), path[..k]) ==
      Some(if k == |path| then Leaf(payload) else Interior(map[path[k] := Build(path[k + 1..], payload)], None))
    decreases path
  {
    if k > 0 {
      BuildShape(path[1..], payload, k - 1);
      assert path[..k][0] == path[0] && path[..k][1..] == path[1..][..k - 1];
      if k < |path| {
        assert path[1..][k - 1] == path[k] && path[1..][k..] == path[k + 1..];
      }
    }
  }

  /** The subscript setter: install `replacement` under `path`, overriding
    * whatever was there. */
  function Update<T, P>(t: Tree<T, P>, path: seq<T>, replacement: P): Tree<T, P>
  {
    Merge(t, Build(path, replacement), (existing: P, incoming: P) => replacement)
  }

  /** After an update the path holds the replacement, and every other path is unchanged. */
  lemma GetUpdate<T, P>(t: Tree<T, P>, path: seq<T>, replacement: P, q: seq<T>)
    ensures Get(Update(t, path, replacement), q) == if q == path then Some(replacement) else Get(t, q)
  {
    GetMerge(t, Build(path, replacement), (existing: P, incoming: P) => replacement, q);
    GetBuild(path, replacement, q);
  }

  /** The value of the last entry with the given key. */
  ghost function Find<K, V>(entries: seq<(K, V)>, key: K): Option<V>
  {
    if entries == [] then None
    else if entries[|entries| - 1].0 == key then Some(entries[|entries| - 1].1)
    else Find(entries[..|entries| - 1], key)
  }

  /** No two entries share a key, as in a dictionary. */
  ghost predicate DistinctKeys<K, V>(entries: seq<(K, V)>)
  {
    forall i, j :: 0 <= i < j < |entries| ==> entries[i].0 != entries[j].0
  }

  /** With distinct keys, `Find` answers exactly the entries present. */
  lemma {:induction false} FindDistinct<K, V>(entries: seq<(K, V)>, key: K, value: V)
    requires DistinctKeys(entries)
    ensures Find(entries, key) == Some(value) <==> (key, value) in entries
  {
    if entries != [] {
      var init := entries[..|entries| - 1];
      assert DistinctKeys(init);
      FindDistinct(init, key, value);
      assert entries == init + [entries[|entries| - 1]];
      if entries[|entries| - 1].0 == key {
        assert forall i :: 0 <= i < |init| ==> init[i].0 != key;
      }
    }
  }

  /** When every entry with a key carries the same value, `Find` answers it. */
  lemma {:induction false} FindUniform<K, V>(entries: seq<(K, V)>, key: K, value: V)
    requires (key, value) in entries
    requires forall i :: 0 <= i < |entries| && entries[i].0 == key ==> entries[i].1 == value
    ensures Find(entries, key) == Some(value)
  {
    var init := entries[..|entries| - 1];
    if entries[|entries| - 1].0 != key {
      assert entries == init + [entries[|entries| - 1]];
      FindUniform(init, key, value);
    }
  }

  /** With no entry for a key, `Find` answers nothing. */
  lemma {:induction false} FindAbsent<K, V>(entries: seq<(K, V)>, key: K)
    requires forall i :: 0 <= i < |entries| ==> entries[i].0 != key
    ensures Find(entries, key) == None
  {
    if entries != [] {
      FindAbsent(entries[..|entries| - 1], key);
    }
  }

  /** `Find` answers `answer` when every entry with the key carries its value
    * and, if it names a value, some entry carries it. */
  lemma FindCharacterized<K, V>(entries: seq<(K, V)>, key: K, answer: Option<V>)
    requires forall i :: 0 <= i < |entries| && entries[i].0 == key ==> answer == Some(entries[i].1)
    requires answer.Some? ==> (key, answer.value) in entries
    ensures Find(entries, key) == answer
  {
    if answer.Some? {
      FindUniform(entries, key, answer.value);
    } else {
      FindAbsent(entries, key);
    }
  }

  /** A tree holding every entry (the source's `build(allPaths:)`), folding
    * the entries in their iteration order. */
  function BuildAll<T, P>(entries: seq<(seq<T>, P)>): Tree<T, P>
  {
    if entries == [] then Empty
    else
      var entry := entries[|entries| - 1];
      Merge(BuildAll(entries[..|entries| - 1]), Build(entry.0, entry.1), KeepNew)
  }

  /** A tree built from entries answers, for every path, the entry with that key. */
  lemma {:induction false} GetBuildAll<T, P>(entries: seq<(seq<T>, P)>, path: seq<T>)
    ensures Get(BuildAll(entries), path) == Find(entries, path)
  {
    if entries != [] {
      var entry := entries[|entries| - 1];
      GetBuildAll(entries[..|entries| - 1], path);
      GetMerge(BuildAll(entries[..|entries| - 1]), Build(entry.0, entry.1), KeepNew, path);
      GetBuild(entry.0, entry.1, path);
    }
  }

  /** Structural equality as the source's `==` computes it. */
  function Equal<T, P(==)>(a: Tree<T, P>, b: Tree<T, P>): (r: bool)
    ensures r <==> a == b
  {
    match (a, b)
    case (Empty, Empty) => true
    case (Interior(b1, p1), Interior(b2, p2)) =>
      var sameBranches := b1.Keys == b2.Keys && forall k | k in b1 :: Equal(b1[k], b2[k]);
      assert sameBranches ==> b1 == b2;
      sameBranches && p1 == p2
    case (Leaf(p1), Leaf(p2)) => p1 == p2
    case _ => false
  }
}
