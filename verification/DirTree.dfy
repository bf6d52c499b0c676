// The ordered tree of names and byte strings that the disk stands for, with path lookup and
// replacement of subtrees.

module DirTree {
  import opened CString
  import opened Options

  // A file remembers how many data blocks its chain holds: a chain never shrinks.
  datatype Tree =
    | File(name: text, bytes: seq<byte>, blocks: nat)
    | Dir(name: text, kids: seq<Tree>)

  // ---------- Lookup by name ----------

  // Position of the first entry called name, in insertion order; |kids| when there is none.
  function FirstNamed(kids: seq<Tree>, name: seq<byte>): (i: nat)
    ensures i <= |kids|
    ensures i < |kids| ==> kids[i].name == name
    ensures forall j :: 0 <= j < i ==> kids[j].name != name
  {
    if kids == [] || kids[0].name == name then 0 else 1 + FirstNamed(kids[1..], name)
  }

  lemma FirstNamedIs(kids: seq<Tree>, name: seq<byte>, i: nat)
    requires i <= |kids| && (i < |kids| ==> kids[i].name == name)
    requires forall j :: 0 <= j < i ==> kids[j].name != name
    ensures FirstNamed(kids, name) == i
  {
  }

  function Prefixed(p: seq<nat>, r: Option<seq<nat>>): Option<seq<nat>> {
    if r.Some? then Some(p + r.value) else None
  }

  // The index path a list of names leads to; a file has no entries.
  function Resolve(t: Tree, names: seq<seq<byte>>): (r: Option<seq<nat>>)
    ensures r.Some? ==> |r.value| == |names| && ValidPath(t, r.value)
    decreases |names|
  {
    if names == [] then Some([])
    else if t.File? then None
    else
      var i := FirstNamed(t.kids, names[0]);
      if i == |t.kids| then None
      else Prefixed([i], Resolve(t.kids[i], names[1..]))
  }

  // No proper prefix of the names leads to a file.
  predicate Clean(t: Tree, names: seq<seq<byte>>)
    decreases |names|
  {
    names == [] ||
    (t.Dir? &&
     var i := FirstNamed(t.kids, names[0]);
     i < |t.kids| ==> Clean(t.kids[i], names[1..]))
  }

  // ---------- Subtrees ----------

  predicate ValidPath(t: Tree, ip: seq<nat>)
    decreases |ip|
  {
    ip == [] || (t.Dir? && ip[0] < |t.kids| && ValidPath(t.kids[ip[0]], ip[1..]))
  }

  function Get(t: Tree, ip: seq<nat>): Tree
    requires ValidPath(t, ip)
    decreases |ip|
  {
    if ip == [] then t else Get(t.kids[ip[0]], ip[1..])
  }

  function Put(t: Tree, ip: seq<nat>, u: Tree): (r: Tree)
    requires ValidPath(t, ip)
    ensures ip != [] ==> r.name == t.name
    decreases |ip|
  {
    if ip == [] then u
    else t.(kids := t.kids[ip[0] := Put(t.kids[ip[0]], ip[1..], u)])
  }

  lemma {:induction false} PathConcat(t: Tree, p: seq<nat>, q: seq<nat>)
    requires ValidPath(t, p)
    ensures ValidPath(t, p + q) <==> ValidPath(Get(t, p), q)
    ensures ValidPath(t, p + q) ==> Get(t, p + q) == Get(Get(t, p), q)
    decreases |p|
  {
    if p == [] {
      assert p + q == q;
    } else {
      assert (p + q)[1..] == p[1..] + q;
      PathConcat(t.kids[p[0]], p[1..], q);
    }
  }

  // Lookup of a concatenation goes through the first part.
  lemma {:induction false} ResolveConcat(t: Tree, a: seq<seq<byte>>, b: seq<seq<byte>>)
    ensures Resolve(t, a).None? ==> Resolve(t, a + b).None?
    ensures Resolve(t, a).Some? ==>
              var p := Resolve(t, a).value;
              Resolve(t, a + b) == Prefixed(p, Resolve(Get(t, p), b))
    decreases |a|
  {
    if a == [] {
      assert a + b == b;
      PrefixedEmpty(Resolve(t, b));
    } else if t.Dir? {
      assert (a + b)[0] == a[0] && (a + b)[1..] == a[1..] + b;
      var i := FirstNamed(t.kids, a[0]);
      if i < |t.kids| {
        var k := t.kids[i];
        ResolveConcat(k, a[1..], b);
        var r := Resolve(k, a[1..]);
        if r.Some? {
          assert ([i] + r.value)[1..] == r.value;
          PrefixedTwice([i], r.value, Resolve(Get(k, r.value), b));
        }
      }
    }
  }

  lemma PrefixedEmpty(r: Option<seq<nat>>)
    ensures Prefixed([], r) == r
  {
    assert r.Some? ==> [] + r.value == r.value;
  }

  lemma PrefixedTwice(p: seq<nat>, q: seq<nat>, r: Option<seq<nat>>)
    ensures Prefixed(p, Prefixed(q, r)) == Prefixed(p + q, r)
  {
    assert r.Some? ==> p + (q + r.value) == p + q + r.value;
  }

  lemma ResolveOne(d: Tree, n: seq<byte>)
    requires d.Dir? && FirstNamed(d.kids, n) < |d.kids|
    ensures Resolve(d, [n]) == Some([FirstNamed(d.kids, n)])
    ensures Clean(d, [n])
  {
    var i := FirstNamed(d.kids, n);
    assert [n][1..] == [];
    assert Resolve(d.kids[i], []) == Some([]);
    assert [i] + [] == [i];
  }

  // ---------- Laws of Put ----------

  lemma {:induction false} PutValid(t: Tree, ip: seq<nat>, u: Tree)
    requires ValidPath(t, ip)
    ensures ValidPath(Put(t, ip, u), ip)
    ensures Get(Put(t, ip, u), ip) == u
    decreases |ip|
  {
    if ip != [] {
      PutValid(t.kids[ip[0]], ip[1..], u);
    }
  }

  lemma {:induction false} PutGet(t: Tree, ip: seq<nat>)
    requires ValidPath(t, ip)
    ensures Put(t, ip, Get(t, ip)) == t
    decreases |ip|
  {
    if ip != [] {
      PutGet(t.kids[ip[0]], ip[1..]);
    }
  }

  lemma {:induction false} PutPut(t: Tree, ip: seq<nat>, u: Tree, w: Tree)
    requires ValidPath(t, ip)
    ensures ValidPath(Put(t, ip, u), ip)
    ensures Put(Put(t, ip, u), ip, w) == Put(t, ip, w)
    decreases |ip|
  {
    if ip != [] {
      var k := t.kids[ip[0]];
      PutPut(k, ip[1..], u, w);
      var a, b := t.kids[ip[0] := Put(k, ip[1..], u)], t.kids[ip[0] := Put(k, ip[1..], w)];
      assert a[ip[0] := Put(k, ip[1..], w)] == b;
    }
  }

  // A file put in place of a file of the same name moves no path.
  lemma {:induction false} ResolveAfterFilePut(t: Tree, ip: seq<nat>, u: Tree, names: seq<seq<byte>>)
    requires ValidPath(t, ip) && Get(t, ip).File? && u.File? && u.name == Get(t, ip).name
    ensures Resolve(Put(t, ip, u), names) == Resolve(t, names)
    ensures Clean(Put(t, ip, u), names) == Clean(t, names)
    decreases |names|
  {
    if ip != [] && names != [] {
      var k := ip[0];
      var t' := Put(t, ip, u);
      assert ip[1..] == [] ==> t'.kids[k] == u && Get(t, ip) == t.kids[k];
      assert forall j :: 0 <= j < |t.kids| ==> t'.kids[j].name == t.kids[j].name;
      var i := FirstNamed(t.kids, names[0]);
      FirstNamedIs(t'.kids, names[0], i);
      if i == k {
        ResolveAfterFilePut(t.kids[k], ip[1..], u, names[1..]);
      }
    }
  }

  // ---------- Space ----------

  // Blocks a subtree occupies: an inode and its chain, or an inode, one list cell per entry and
  // the sentinel.
  function Space(t: Tree): nat {
    match t
    case File(_, _, blocks) => 1 + blocks
    case Dir(_, kids) => 2 + |kids| + SpaceAll(kids)
  }

  function SpaceAll(ts: seq<Tree>): nat {
    if ts == [] then 0 else Space(ts[0]) + SpaceAll(ts[1..])
  }

  lemma {:induction false} SpaceAllUpdate(ts: seq<Tree>, i: nat, u: Tree)
    requires i < |ts|
    ensures SpaceAll(ts[i := u]) == SpaceAll(ts) - Space(ts[i]) + Space(u)
  {
    if i == 0 {
      assert ts[i := u][1..] == ts[1..];
    } else {
      SpaceAllUpdate(ts[1..], i - 1, u);
      assert ts[i := u][1..] == ts[1..][i - 1 := u];
    }
  }

  lemma {:induction false} SpaceAllConcat(a: seq<Tree>, b: seq<Tree>)
    ensures SpaceAll(a + b) == SpaceAll(a) + SpaceAll(b)
  {
    if a == [] {
      assert a + b == b;
    } else {
      assert (a + b)[1..] == a[1..] + b;
      SpaceAllConcat(a[1..], b);
    }
  }

  function Without<T>(s: seq<T>, i: nat): (r: seq<T>)
    requires i < |s|
    ensures |r| == |s| - 1
    ensures forall j :: 0 <= j < |r| ==> r[j] == if j < i then s[j] else s[j + 1]
  {
    s[..i] + s[i + 1..]
  }

  lemma {:induction false} SpaceAllWithout(ts: seq<Tree>, i: nat)
    requires i < |ts|
    ensures SpaceAll(Without(ts, i)) == SpaceAll(ts) - Space(ts[i])
  {
    if i == 0 {
      assert Without(ts, i) == ts[1..];
    } else {
      SpaceAllWithout(ts[1..], i - 1);
      assert Without(ts, i)[1..] == Without(ts[1..], i - 1);
    }
  }

  lemma {:induction false} SpacePut(t: Tree, ip: seq<nat>, u: Tree)
    requires ValidPath(t, ip)
    ensures Space(Put(t, ip, u)) == Space(t) - Space(Get(t, ip)) + Space(u)
    decreases |ip|
  {
    if ip != [] {
      SpacePut(t.kids[ip[0]], ip[1..], u);
      SpaceAllUpdate(t.kids, ip[0], Put(t.kids[ip[0]], ip[1..], u));
    }
  }
}
