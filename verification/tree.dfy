/**
 * The abstract filesystem the directory helpers of `FilesystemUtils` work
 * on: an immutable tree whose directories map member names to nodes and
 * whose files carry their size. A path is the sequence of member names from
 * the root; the empty path is the root itself.
 */
module FsTree {
  import opened Wrappers

  datatype Node = File(size: nat) | Dir(children: map<string, Node>)

  type Path = seq<string>

  /** The node a path leads to, if every step names a member of a directory. */
  function Lookup(n: Node, p: Path): Option<Node>
    decreases |p|
  {
    if |p| == 0 then Some(n)
    else
      match n
      case File(_) => None
      case Dir(ch) => if p[0] in ch then Lookup(ch[p[0]], p[1..]) else None
  }

  /** Looking up one more step is looking up the member of the directory found so far. */
  lemma {:induction false} LookupAppend(n: Node, p: Path, k: string)
    ensures Lookup(n, p + [k]) ==
              if Lookup(n, p).Some? && Lookup(n, p).value.Dir? && k in Lookup(n, p).value.children
              then Some(Lookup(n, p).value.children[k]) else None
    decreases |p|
  {
    if |p| > 0 {
      assert (p + [k])[0] == p[0] && (p + [k])[1..] == p[1..] + [k];
      if n.Dir? && p[0] in n.children {
        LookupAppend(n.children[p[0]], p[1..], k);
      }
    }
  }

  /**
   * The tree with the node at `p` replaced by `v`, or added when `p` names a
   * new member of an existing directory. A path through a file or a missing
   * directory leaves the tree as it is (`mkdir` without parents fails).
   */
  function SetAt(n: Node, p: Path, v: Node): (r: Node)
    ensures Lookup(n, p).Some? ==> Lookup(r, p) == Some(v)
    ensures r.Dir? == (if |p| == 0 then v.Dir? else n.Dir?)
    decreases |p|
  {
    if |p| == 0 then v
    else
      match n
      case File(_) => n
      case Dir(ch) =>
        if |p| == 1 then Dir(ch[p[0] := v])
        else if p[0] in ch then Dir(ch[p[0] := SetAt(ch[p[0]], p[1..], v)])
        else n
  }

  /** The tree with the node at `p` and everything below it gone; the root cannot be removed. */
  function RemoveAt(n: Node, p: Path): (r: Node)
    requires |p| > 0
    ensures Lookup(r, p).None?
    ensures r.Dir? == n.Dir?
    decreases |p|
  {
    match n
    case File(_) => n
    case Dir(ch) =>
      if |p| == 1 then Dir(ch - {p[0]})
      else if p[0] in ch then Dir(ch[p[0] := RemoveAt(ch[p[0]], p[1..])])
      else n
  }

  /** Two paths that branch apart: neither is a prefix of the other. */
  predicate Apart(p: Path, q: Path)
  {
    !(p <= q) && !(q <= p)
  }

  /** Replacing the node at `p` changes nothing on a path that branches away from `p`. */
  lemma {:induction false} SetAtElsewhere(n: Node, p: Path, v: Node, q: Path)
    requires Apart(p, q)
    ensures Lookup(SetAt(n, p, v), q) == Lookup(n, q)
    decreases |p|
  {
    if n.Dir? && |p| > 1 && p[0] in n.children && q[0] == p[0] {
      assert p == [p[0]] + p[1..] && q == [q[0]] + q[1..];
      assert Apart(p[1..], q[1..]);
      SetAtElsewhere(n.children[p[0]], p[1..], v, q[1..]);
    }
  }

  /** Removing the node at `p` changes nothing on a path that branches away from `p`. */
  lemma {:induction false} RemoveAtElsewhere(n: Node, p: Path, q: Path)
    requires |p| > 0 && Apart(p, q)
    ensures Lookup(RemoveAt(n, p), q) == Lookup(n, q)
    decreases |p|
  {
    if n.Dir? && |p| > 1 && p[0] in n.children && q[0] == p[0] {
      assert p == [p[0]] + p[1..] && q == [q[0]] + q[1..];
      assert Apart(p[1..], q[1..]);
      RemoveAtElsewhere(n.children[p[0]], p[1..], q[1..]);
    }
  }

  /** Putting back the node that is already there changes nothing. */
  lemma {:induction false} SetAtSame(n: Node, p: Path)
    requires Lookup(n, p).Some?
    ensures SetAt(n, p, Lookup(n, p).value) == n
    decreases |p|
  {
    if |p| > 1 {
      SetAtSame(n.children[p[0]], p[1..]);
    }
  }

  /** Removing a node does not depend on what it held. */
  lemma {:induction false} RemoveAtSetAt(n: Node, p: Path, v: Node)
    requires |p| > 0 && Lookup(n, p).Some?
    ensures RemoveAt(SetAt(n, p, v), p) == RemoveAt(n, p)
    decreases |p|
  {
    if |p| > 1 {
      RemoveAtSetAt(n.children[p[0]], p[1..], v);
    }
  }

  /** Removing a member of the directory at `p` is replacing that directory by one without the member. */
  lemma {:induction false} RemoveMember(n: Node, p: Path, ch: map<string, Node>, k: string)
    requires Lookup(n, p).Some?
    ensures RemoveAt(SetAt(n, p, Dir(ch)), p + [k]) == SetAt(n, p, Dir(ch - {k}))
    decreases |p|
  {
    if |p| == 0 {
      assert p + [k] == [k];
    } else {
      assert (p + [k])[0] == p[0] && (p + [k])[1..] == p[1..] + [k];
      if |p| > 1 {
        RemoveMember(n.children[p[0]], p[1..], ch, k);
      }
    }
  }

  /** An arbitrary but fixed member of a non-empty name set. */
  ghost function Pick(ks: set<string>): string
    requires ks != {}
  {
    var k :| k in ks; k
  }

  /** The total size of the files in a subtree. */
  ghost function Size(n: Node): nat
    decreases n, 1
  {
    match n
    case File(s) => s
    case Dir(ch) => SumOver(n, ch.Keys)
  }

  /** The total size of the members `ks` of directory `d`. */
  ghost function SumOver(d: Node, ks: set<string>): nat
    requires d.Dir? && ks <= d.children.Keys
    decreases d, 0, ks
  {
    if ks == {} then 0
    else
      var k := Pick(ks);
      Size(d.children[k]) + SumOver(d, ks - {k})
  }

  /** The sum does not depend on the order the members are taken in: any member can go first. */
  lemma {:induction false} SumOverRemove(d: Node, ks: set<string>, k: string)
    requires d.Dir? && ks <= d.children.Keys && k in ks
    ensures SumOver(d, ks) == Size(d.children[k]) + SumOver(d, ks - {k})
    decreases ks
  {
    var j := Pick(ks);
    if j != k {
      SumOverRemove(d, ks - {j}, k);
      SumOverRemove(d, ks - {k}, j);
      assert ks - {j} - {k} == ks - {k} - {j};
    }
  }

  /** A second replacement at the same path overrides the first. */
  lemma {:induction false} SetAtTwice(n: Node, p: Path, a: Node, b: Node)
    requires Lookup(n, p).Some?
    ensures SetAt(SetAt(n, p, a), p, b) == SetAt(n, p, b)
    decreases |p|
  {
    if |p| > 1 {
      SetAtTwice(n.children[p[0]], p[1..], a, b);
    }
  }
}
