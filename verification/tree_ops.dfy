/**
 * The recursive directory helpers of `FilesystemUtils` over the abstract
 * tree: `dirsize`, `rrmdir` and `create_directory_structure`. Each takes the
 * tree as it stands and returns the tree it leaves behind.
 */
module TreeOps {
  import opened Wrappers
  import opened PhpValues
  import opened FsTree

  /** Adding a member to an existing directory makes it reachable at the new path. */
  lemma {:induction false} SetAtNewMember(n: Node, p: Path, k: string, v: Node)
    requires Lookup(n, p).Some? && Lookup(n, p).value.Dir?
    ensures Lookup(SetAt(n, p + [k], v), p + [k]) == Some(v)
    decreases |p|
  {
    if |p| == 0 {
      assert p + [k] == [k];
    } else {
      assert (p + [k])[0] == p[0] && (p + [k])[1..] == p[1..] + [k];
      SetAtNewMember(n.children[p[0]], p[1..], k, v);
    }
  }

  /**
   * The size of a directory as `dirsize` adds it up: the size of each member
   * file, and the recursive size of each member directory.
   */
  method SubtreeSize(d: Node) returns (total: nat)
    requires d.Dir?
    ensures total == Size(d)
    decreases d
  {
    total := 0;
    var remaining := d.children.Keys;
    while remaining != {}
      invariant remaining <= d.children.Keys
      invariant total + SumOver(d, remaining) == Size(d)
      decreases remaining
    {
      var k :| k in remaining;
      var m := d.children[k];
      var s: nat;
      if m.File? {
        s := m.size;
      } else {
        s := SubtreeSize(m);
      }
      SumOverRemove(d, remaining, k);
      total := total + s;
      remaining := remaining - {k};
    }
  }

  /** The exception `dirsize` throws for a missing directory it may not create. */
  const DirMissing := Exception("Directory does not exist!", Numeric(400))

  /**
   * `dirsize($dir, $createifmissing)`: the total size of the files below
   * `dir`. A missing directory is created (when its parent exists) and
   * counts 0 if `createIfMissing`, and throws otherwise; a file in place of
   * the directory counts 0, as `scandir` fails on it.
   */
  method DirSize(fs: Node, dir: Path, createIfMissing: bool) returns (r: Result<nat, Exception>, fs': Node)
    ensures Lookup(fs, dir).None? && createIfMissing ==> r == Success(0) && fs' == SetAt(fs, dir, Dir(map[]))
    ensures Lookup(fs, dir).None? && !createIfMissing ==> r == Failure(DirMissing) && fs' == fs
    ensures Lookup(fs, dir).Some? ==> fs' == fs
    ensures Lookup(fs, dir).Some? && Lookup(fs, dir).value.File? ==> r == Success(0)
    ensures Lookup(fs, dir).Some? && Lookup(fs, dir).value.Dir? ==> r == Success(Size(Lookup(fs, dir).value))
  {
    match Lookup(fs, dir)
    case None =>
      if createIfMissing {
        return Success(0), SetAt(fs, dir, Dir(map[]));
      }
      return Failure(DirMissing), fs;
    case Some(n) =>
      if n.File? {
        return Success(0), fs;
      }
      var total := SubtreeSize(n);
      return Success(total), fs;
  }

  /** Creating a missing member of an existing directory leaves an empty directory there and nothing else changed. */
  lemma DirSizeCreates(fs: Node, parent: Path, name: string, q: Path)
    requires Lookup(fs, parent).Some? && Lookup(fs, parent).value.Dir?
    requires name !in Lookup(fs, parent).value.children
    requires Apart(parent + [name], q)
    ensures Lookup(fs, parent + [name]).None?
    ensures var fs' := SetAt(fs, parent + [name], Dir(map[]));
            Lookup(fs', parent + [name]) == Some(Dir(map[])) && Lookup(fs', q) == Lookup(fs, q)
  {
    LookupAppend(fs, parent, name);
    SetAtNewMember(fs, parent, name, Dir(map[]));
    SetAtElsewhere(fs, parent + [name], Dir(map[]), q);
  }

  /**
   * The order of the `unlink`/`rmdir` calls of one `rrmdir`: every call
   * lies inside `path`, the last one is `path` itself, and no directory is
   * removed before something below it.
   */
  predicate PostOrder(calls: seq<Path>, path: Path)
  {
    && |calls| > 0 && calls[|calls| - 1] == path
    && (forall i :: 0 <= i < |calls| ==> path <= calls[i])
    && (forall i, j :: 0 <= i < j < |calls| ==> !(calls[i] < calls[j]))
  }

  /** Every call lies below `path`, inside one of the members `done`. */
  predicate Below(calls: seq<Path>, path: Path, done: set<string>)
  {
    forall i :: 0 <= i < |calls| ==> |calls[i]| > |path| && path <= calls[i] && calls[i][|path|] in done
  }

  /** No call removes a directory before a call below it. */
  predicate Ordered(calls: seq<Path>)
  {
    forall i, j :: 0 <= i < j < |calls| ==> !(calls[i] < calls[j])
  }

  /** Paths below two different members of one directory are never prefixes of each other. */
  lemma Branches(path: Path, a: Path, b: Path)
    requires |a| > |path| && |b| > |path| && path <= a && path <= b && a[|path|] != b[|path|]
    ensures !(a < b) && !(b < a)
  {
  }

  /** The calls for one more member, appended after those of the members already done, keep the order. */
  lemma AppendMemberCalls(calls: seq<Path>, sub: seq<Path>, path: Path, done: set<string>, m: string)
    requires Below(calls, path, done) && Ordered(calls) && m !in done
    requires PostOrder(sub, path + [m]) && Ordered(sub)
    ensures Below(calls + sub, path, done + {m}) && Ordered(calls + sub)
  {
    var all := calls + sub;
    forall i | 0 <= i < |sub|
      ensures |sub[i]| > |path| && path <= sub[i] && sub[i][|path|] == m
    {
      assert (path + [m])[|path|] == m;
      assert sub[i][|path|] == (path + [m])[|path|];
    }
    forall i, j | 0 <= i < j < |all|
      ensures !(all[i] < all[j])
    {
      if j >= |calls| && i < |calls| {
        Branches(path, calls[i], sub[j - |calls|]);
      } else if i >= |calls| {
        assert all[i] == sub[i - |calls|] && all[j] == sub[j - |calls|];
      }
    }
  }

  /**
   * The recursion of `rrmdir` on a node known to be at `path`: a file is
   * unlinked; a directory has each member removed in turn, then is removed
   * itself (the root directory cannot be).
   */
  method RemoveNode(fs: Node, path: Path, node: Node) returns (ok: bool, fs': Node, calls: seq<Path>)
    requires Lookup(fs, path) == Some(node)
    ensures |path| > 0 ==> ok && fs' == RemoveAt(fs, path)
    ensures |path| == 0 ==> !ok && fs' == (if fs.Dir? then Dir(map[]) else fs)
    ensures PostOrder(calls, path) && Ordered(calls)
    ensures forall q :: Lookup(node, q).Some? ==> path + q in calls
    decreases node
  {
    if node.File? {
      calls := [path];
      assert path + [] == path;
      if |path| == 0 {
        return false, fs, calls;
      }
      return true, RemoveAt(fs, path), calls;
    }
    var ch := node.children;
    var cur := fs;
    var rest := ch;
    ghost var done: set<string> := {};
    calls := [];
    SetAtSame(fs, path);
    while rest != map[]
      invariant forall k :: k in rest ==> k in ch && rest[k] == ch[k]
      invariant forall k :: k in ch ==> k in rest || k in done
      invariant forall k :: k in done ==> k in ch && k !in rest
      invariant cur == SetAt(fs, path, Dir(rest))
      invariant Below(calls, path, done) && Ordered(calls)
      invariant forall k, q :: k in done && Lookup(ch[k], q).Some? ==> path + [k] + q in calls
      decreases |rest|
    {
      var m :| m in rest;
      LookupAppend(cur, path, m);
      var _, next, sub := RemoveNode(cur, path + [m], ch[m]);
      RemoveMember(fs, path, rest, m);
      AppendMemberCalls(calls, sub, path, done, m);
      calls := calls + sub;
      cur := next;
      rest := rest - {m};
      done := done + {m};
    }
    CoverMembers(node, path, calls, done);
    calls := calls + [path];
    if |path| == 0 {
      return false, Dir(map[]), calls;
    }
    RemoveAtSetAt(fs, path, Dir(map[]));
    return true, RemoveAt(fs, path), calls;
  }

  /** Once every member's subtree is covered, appending the directory itself covers the whole subtree in order. */
  lemma CoverMembers(node: Node, path: Path, calls: seq<Path>, done: set<string>)
    requires node.Dir? && node.children.Keys <= done
    requires Below(calls, path, done) && Ordered(calls)
    requires forall k, q :: k in done && k in node.children && Lookup(node.children[k], q).Some? ==> path + [k] + q in calls
    ensures PostOrder(calls + [path], path) && Ordered(calls + [path])
    ensures forall q :: Lookup(node, q).Some? ==> path + q in calls + [path]
  {
    forall q | Lookup(node, q).Some?
      ensures path + q in calls + [path]
    {
      if |q| > 0 {
        assert q[0] in node.children && Lookup(node.children[q[0]], q[1..]).Some?;
        assert path + q == path + [q[0]] + q[1..];
      } else {
        assert path + q == path;
      }
    }
  }

  /**
   * `rrmdir($path)`: nothing for a missing path (the PHP function falls off
   * its end, returning null, here `None`); otherwise the result of the final
   * `unlink` or `rmdir`.
   */
  method Rrmdir(fs: Node, path: Path) returns (ok: Option<bool>, fs': Node, calls: seq<Path>)
    ensures Lookup(fs, path).None? ==> ok.None? && fs' == fs && calls == []
    ensures Lookup(fs, path).Some? && |path| > 0 ==> ok == Some(true) && fs' == RemoveAt(fs, path)
    ensures Lookup(fs, path).Some? && |path| == 0 ==> ok == Some(false) && fs' == (if fs.Dir? then Dir(map[]) else fs)
    ensures Lookup(fs, path).Some? ==> PostOrder(calls, path)
    ensures forall q :: Lookup(fs, path + q).Some? ==> path + q in calls
  {
    match Lookup(fs, path)
    case None =>
      forall q | Lookup(fs, path + q).Some?
        ensures false
      {
        LookupPrefix(fs, path, q);
      }
      return None, fs, [];
    case Some(node) =>
      var b;
      b, fs', calls := RemoveNode(fs, path, node);
      forall q | Lookup(fs, path + q).Some?
        ensures path + q in calls
      {
        LookupPrefix(fs, path, q);
      }
      return Some(b), fs', calls;
  }

  /** Looking up `p + q` is looking up `q` from the node at `p`. */
  lemma {:induction false} LookupPrefix(n: Node, p: Path, q: Path)
    ensures Lookup(n, p + q) == if Lookup(n, p).Some? then Lookup(Lookup(n, p).value, q) else None
    decreases |p|
  {
    if |p| > 0 {
      assert (p + q)[0] == p[0] && (p + q)[1..] == p[1..] + q;
      if n.Dir? && p[0] in n.children {
        LookupPrefix(n.children[p[0]], p[1..], q);
      }
    } else {
      assert p + q == q;
    }
  }

  /**
   * The `$folders` argument of `create_directory_structure`: folder names
   * mapped to their subfolders. A value that is not a non-empty array stands
   * for no subfolders.
   */
  datatype Folders = Folders(sub: map<string, Folders>)

  /** `touch($dir.'index.html')`: an empty `index.html` appears unless something of that name exists. */
  function Touch(n: Node): (r: Node)
    ensures r.Dir? == n.Dir?
    ensures n.Dir? ==> "index.html" in r.children && r.children.Keys == n.children.Keys + {"index.html"}
    ensures n.Dir? ==> forall k :: k in n.children ==> r.children[k] == n.children[k]
  {
    match n
    case File(_) => n
    case Dir(ch) => if "index.html" in ch then n else Dir(ch["index.html" := File(0)])
  }

  /** The member `k` of a directory, or the empty directory `mkdir` would make for it. */
  function Member(ch: map<string, Node>, k: string): Node
  {
    if k in ch then ch[k] else Dir(map[])
  }

  /**
   * `create_directory_structure($folders, $dir)` on the directory `n`: each
   * named folder is made unless something of that name exists, gets an
   * `index.html`, and has its subfolders made inside it. A file in the way
   * makes the `touch`, `mkdir` and the recursion below it fail, so it stays
   * as it is.
   */
  function CreateIn(spec: Folders, n: Node): (r: Node)
    ensures r.Dir? == n.Dir?
    ensures n.Dir? ==> r.children.Keys == n.children.Keys + spec.sub.Keys
    ensures n.Dir? ==> forall k :: k in n.children && (k !in spec.sub || n.children[k].File?) ==>
                                   r.children[k] == n.children[k]
    ensures n.Dir? ==> forall k :: k in spec.sub ==> (r.children[k].Dir? <==> Member(n.children, k).Dir?)
    decreases spec
  {
    match n
    case File(_) => n
    case Dir(ch) =>
      Dir(map k | k in ch.Keys + spec.sub.Keys ::
            if k in spec.sub && Member(ch, k).Dir? then CreateIn(spec.sub[k], Touch(Member(ch, k))) else ch[k])
  }

  /**
   * Nothing stands in the way of the folders named in `spec`: none is a
   * file, and no folder below the top is itself called `index.html` (its
   * parent's `touch` would already have made a file of that name).
   */
  predicate Clear(spec: Folders, n: Node)
    decreases spec
  {
    && n.Dir?
    && forall k :: k in spec.sub ==>
         && Member(n.children, k).Dir?
         && "index.html" !in spec.sub[k].sub
         && Clear(spec.sub[k], Member(n.children, k))
  }

  /** Every folder named at any depth of `spec` is a directory holding `index.html`. */
  predicate Realized(spec: Folders, n: Node)
    decreases spec
  {
    && n.Dir?
    && forall k :: k in spec.sub ==>
         && k in n.children && n.children[k].Dir? && "index.html" in n.children[k].children
         && Realized(spec.sub[k], n.children[k])
  }

  /** `touch` adds only `index.html`, which a clear spec does not name, so it keeps a directory clear. */
  lemma ClearTouch(spec: Folders, n: Node)
    requires Clear(spec, n) && "index.html" !in spec.sub
    ensures Clear(spec, Touch(n))
  {
    assert forall k :: k in spec.sub ==> Member(Touch(n).children, k) == Member(n.children, k);
  }

  /** On a clear path, every folder of the spec exists afterwards and holds `index.html`. */
  lemma {:induction false} CreateInRealizes(spec: Folders, n: Node)
    requires Clear(spec, n)
    ensures Realized(spec, CreateIn(spec, n))
    decreases spec
  {
    var r := CreateIn(spec, n);
    forall k | k in spec.sub
      ensures k in r.children && r.children[k].Dir? && "index.html" in r.children[k].children
      ensures Realized(spec.sub[k], r.children[k])
    {
      var m := Touch(Member(n.children, k));
      ClearTouch(spec.sub[k], Member(n.children, k));
      CreateInRealizes(spec.sub[k], m);
      assert r.children[k] == CreateIn(spec.sub[k], m);
    }
  }

  /** `touch` on a directory already holding `index.html` changes nothing. */
  lemma TouchAgain(n: Node)
    ensures Touch(Touch(n)) == Touch(n)
  {
  }

  /** Running `create_directory_structure` a second time changes nothing. */
  lemma {:induction false} CreateInIdempotent(spec: Folders, n: Node)
    ensures CreateIn(spec, CreateIn(spec, n)) == CreateIn(spec, n)
    decreases spec
  {
    if n.Dir? {
      var r := CreateIn(spec, n);
      var r2 := CreateIn(spec, r);
      forall k | k in spec.sub && Member(n.children, k).Dir?
        ensures r2.children[k] == r.children[k]
      {
        var m := Touch(Member(n.children, k));
        assert r.children[k] == CreateIn(spec.sub[k], m);
        assert Member(r.children, k) == r.children[k];
        assert Touch(r.children[k]) == r.children[k];
        CreateInIdempotent(spec.sub[k], m);
      }
      assert r2.children == r.children;
    }
  }

  /** `touch` keeps every existing path below the directory and what it leads to. */
  lemma TouchKeeps(n: Node, q: Path)
    requires |q| > 0 && Lookup(n, q).Some?
    ensures Lookup(Touch(n), q) == Lookup(n, q)
  {
    if |q| > 0 && n.Dir? {
      assert Touch(n).children[q[0]] == n.children[q[0]];
    }
  }

  /**
   * Existing entries are never removed or recreated: every path that
   * existed still does, and a file keeps its size (`touch` never truncates).
   */
  lemma {:induction false} CreateInKeepsExisting(spec: Folders, n: Node, q: Path)
    requires Lookup(n, q).Some?
    ensures Lookup(CreateIn(spec, n), q).Some?
    ensures Lookup(n, q).value.File? ==> Lookup(CreateIn(spec, n), q) == Lookup(n, q)
    decreases spec
  {
    if |q| > 0 && n.Dir? {
      var k := q[0];
      var r := CreateIn(spec, n);
      if k in spec.sub && n.children[k].Dir? {
        var m := Touch(n.children[k]);
        assert r.children[k] == CreateIn(spec.sub[k], m);
        if |q| > 1 {
          TouchKeeps(n.children[k], q[1..]);
        }
        CreateInKeepsExisting(spec.sub[k], m, q[1..]);
      }
    }
  }

  /**
   * `create_directory_structure($folders, $base_dir)` on the whole tree: the
   * structure is made inside `base` when `base` is a directory; otherwise
   * every `mkdir` and `touch` fails and nothing changes.
   */
  function CreateDirectoryStructure(fs: Node, spec: Folders, base: Path): (fs': Node)
    ensures Lookup(fs, base).Some? && Lookup(fs, base).value.Dir? ==>
              Lookup(fs', base) == Some(CreateIn(spec, Lookup(fs, base).value))
    ensures Lookup(fs, base).None? || Lookup(fs, base).value.File? ==> fs' == fs
  {
    match Lookup(fs, base)
    case Some(Dir(ch)) => SetAt(fs, base, CreateIn(spec, Dir(ch)))
    case _ => fs
  }

  /** Outside `base` nothing changes, and on a clear base the whole spec is realized. */
  lemma CreateDirectoryStructureEffect(fs: Node, spec: Folders, base: Path, q: Path)
    requires Lookup(fs, base).Some? && Clear(spec, Lookup(fs, base).value)
    requires Apart(base, q)
    ensures Realized(spec, Lookup(CreateDirectoryStructure(fs, spec, base), base).value)
    ensures Lookup(CreateDirectoryStructure(fs, spec, base), q) == Lookup(fs, q)
  {
    CreateInRealizes(spec, Lookup(fs, base).value);
    SetAtElsewhere(fs, base, CreateIn(spec, Lookup(fs, base).value), q);
  }

  /** `create_directory_structure` is idempotent on the whole tree. */
  lemma CreateDirectoryStructureIdempotent(fs: Node, spec: Folders, base: Path)
    ensures CreateDirectoryStructure(CreateDirectoryStructure(fs, spec, base), spec, base)
            == CreateDirectoryStructure(fs, spec, base)
  {
    var fs1 := CreateDirectoryStructure(fs, spec, base);
    if Lookup(fs, base).Some? && Lookup(fs, base).value.Dir? {
      var d := Lookup(fs, base).value;
      CreateInIdempotent(spec, d);
      SetAtTwice(fs, base, CreateIn(spec, d), CreateIn(spec, d));
    }
  }

  /** A nested spec on an empty directory: each level gets its folder and its `index.html`. */
  lemma CreateInNested(inner: Folders, outer: Folders)
    requires inner == Folders(map["b" := Folders(map[])])
    requires outer == Folders(map["a" := inner])
    ensures CreateIn(outer, Dir(map[])) ==
            Dir(map["a" := Dir(map["index.html" := File(0), "b" := Dir(map["index.html" := File(0)])])])
  {
    var leaf := Touch(Dir(map[]));
    assert leaf == Dir(map["index.html" := File(0)]);
    assert CreateIn(Folders(map[]), leaf) == leaf;
    var mid := CreateIn(inner, leaf);
    assert mid.children.Keys == {"index.html", "b"};
    assert mid == Dir(map["index.html" := File(0), "b" := leaf]);
  }

  /** A directory with a 10-byte file and a subdirectory holding 20 and 5 bytes measures 35. */
  lemma SizeExample(sub: Node, top: Node)
    requires sub == Dir(map["b" := File(20), "c" := File(5)])
    requires top == Dir(map["a" := File(10), "d" := sub])
    ensures Size(top) == 35
  {
    SumOverRemove(sub, {"b", "c"}, "b");
    assert {"b", "c"} - {"b"} == {"c"};
    SumOverRemove(sub, {"c"}, "c");
    assert sub.children.Keys == {"b", "c"};
    SumOverRemove(top, {"a", "d"}, "a");
    assert {"a", "d"} - {"a"} == {"d"};
    SumOverRemove(top, {"d"}, "d");
    assert top.children.Keys == {"a", "d"};
  }
}
