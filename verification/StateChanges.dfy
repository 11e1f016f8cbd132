/** vm/tracer.go: the tree of storage keys an account's state variables live under, its two lookup routes, and the
    history of each key. */
module StateChanges {
  import opened Uint

  type Address = Word
  type Hash = Word
  type Name = seq<Byte>
  type Place = (Word, Byte)                     // slot and offset

  datatype NodeType = RootNode | BranchNode | DataNode

  // ---- histories

  /** Values of one key by call index. */
  type Changes = map<nat, seq<Name>>

  function ValuesAt(c: Changes, i: nat): (v: seq<Name>) {
    if i in c then c[i] else []
  }

  /** StorageChanges.append: a value equal to the last one is dropped. */
  function Appended(c: Changes, i: nat, v: Name): (r: Changes) {
    var values := ValuesAt(c, i);
    if values != [] && values[|values| - 1] == v then c else c[i := values + [v]]
  }

  /** A list with runs of equal neighbours reduced to one. */
  function Collapse(s: seq<Name>): (r: seq<Name>)
    ensures s != [] ==> r != [] && r[|r| - 1] == s[|s| - 1]
    ensures forall k :: 0 < k < |r| ==> r[k - 1] != r[k]
  {
    if s == [] then []
    else
      var before := Collapse(s[..|s| - 1]);
      var v := s[|s| - 1];
      if before != [] && before[|before| - 1] == v then before else before + [v]
  }

  // ---- nodes

  class StorageKey {
    const isRoot: bool
    const slot: Word
    const offset: Byte
    const data: Name
    const typeId: Hash
    var children: map<Place, StorageKey>
    var childrenIndex: map<Name, StorageKey>
    var changes: Option<Changes>
    var nodeType: NodeType
    /** Where the node was meant to go: its account, the node it was made for, and the keys on the way. */
    ghost const account: Address
    ghost const up: StorageKey?
    ghost const path: seq<Place>
    ghost const names: seq<Name>

    /** NewRootKey */
    constructor Root(ghost account: Address)
      ensures isRoot && this.account == account && up == null && path == [] && names == []
      ensures children == map[] && childrenIndex == map[] && changes == None && nodeType == RootNode
    {
      isRoot, slot, offset, data, typeId := true, 0, 0, [], 0;
      children, childrenIndex, changes, nodeType := map[], map[], None, RootNode;
      this.account, up, path, names := account, null, [], [];
    }

    /** NewBranchKey */
    constructor Branch(slot: Word, offset: Byte, typeId: Hash, data: Name, ghost up: StorageKey)
      ensures !isRoot && this.slot == slot && this.offset == offset && this.typeId == typeId && this.data == data
      ensures this.up == up && account == up.account
      ensures path == up.path + [(slot, offset)] && names == up.names + [data]
      ensures children == map[] && childrenIndex == map[] && changes == None && nodeType == BranchNode
    {
      isRoot := false;
      this.slot, this.offset, this.typeId, this.data := slot, offset, typeId, data;
      children, childrenIndex, changes, nodeType := map[], map[], None, BranchNode;
      this.account, this.up := up.account, up;
      path, names := up.path + [(slot, offset)], up.names + [data];
    }

    function Here(): (p: Place) { (slot, offset) }

    /** AddChild: the two tables are filled independently of each other. */
    method AddChild(child: StorageKey) returns (r: StorageKey)
      modifies this`children, this`childrenIndex
      ensures childrenIndex == if child.data in old(childrenIndex) then old(childrenIndex)
                               else old(childrenIndex)[child.data := child]
      ensures if child.Here() in old(children) then r == old(children)[child.Here()] && children == old(children)
              else r == child && children == old(children)[child.Here() := child]
    {
      if child.data !in childrenIndex {
        childrenIndex := childrenIndex[child.data := child];
      }
      if child.Here() !in children {
        children := children[child.Here() := child];
        return child;
      }
      return children[child.Here()];
    }

    /** The values saved under one call index. */
    function History(i: nat): (v: seq<Name>)
      reads this`changes
    {
      if changes == None then [] else ValuesAt(changes.value, i)
    }

    /** JournalChanges */
    method JournalChanges(callIdx: nat, newVal: Name)
      modifies this`changes, this`nodeType
      ensures changes == Some(Appended(if old(changes) == None then map[] else old(changes).value, callIdx, newVal))
      ensures nodeType == if old(changes) == None && old(nodeType) != RootNode then DataNode else old(nodeType)
    {
      if changes == None {
        if nodeType != RootNode {
          nodeType := DataNode;
        }
        changes := Some(map[]);
      }
      changes := Some(Appended(changes.value, callIdx, newVal));
    }
  }

  /** One successful save. */
  datatype Save = Save(key: StorageKey, callIdx: nat, value: Name)

  /** The values saved to a key under one call index, in order. */
  ghost function Saved(log: seq<Save>, key: StorageKey, i: nat): (v: seq<Name>) {
    if log == [] then []
    else
      var last := log[|log| - 1];
      Saved(log[..|log| - 1], key, i) + if last.key == key && last.callIdx == i then [last.value] else []
  }

  // ---- the tree

  type IndexKey = (Address, Word, Byte, Hash)

  /** One accepted declaration: under a parent, the root or an indexed key, a name was given to a place. */
  datatype Decl = Decl(account: Address, parent: Option<(Word, Hash)>, place: Place, typeId: Hash, data: Name)
  {
    function Entry(): (k: IndexKey) { (account, place.0, place.1, typeId) }
  }

  /** A storage layout: under one parent names and places determine each other, a place has one type, and no place
      and type is used under two parents. */
  ghost predicate Layout(decls: set<Decl>) {
    && (forall x, y :: x in decls && y in decls && x.account == y.account && x.parent == y.parent ==>
          && (x.data == y.data <==> x.place == y.place)
          && (x.place == y.place ==> x.typeId == y.typeId))
    && (forall x, y :: x in decls && y in decls && x.Entry() == y.Entry() ==> x.parent == y.parent)
  }

  /** The place has been given out under this parent. */
  ghost predicate Taken(decls: set<Decl>, x: Decl) {
    exists y :: y in decls && y.account == x.account && y.parent == x.parent && y.place == x.place
  }

  /** The name has been given out under this parent. */
  ghost predicate NameTaken(decls: set<Decl>, x: Decl) {
    exists y :: y in decls && y.account == x.account && y.parent == x.parent && y.data == x.data
  }

  /** A declaration keeps the two routes together: at a place given out before its name must be too, at a new place its
      name must have been given out exactly when its entry is known. */
  ghost predicate Fits(decls: set<Decl>, known: set<IndexKey>, x: Decl) {
    if Taken(decls, x) then NameTaken(decls, x) else NameTaken(decls, x) <==> x.Entry() in known
  }

  lemma LayoutShrinks(few: set<Decl>, many: set<Decl>)
    requires few <= many && Layout(many)
    ensures Layout(few)
  {
  }

  class StateChanges {
    var roots: map<Address, StorageKey>
    var index: map<IndexKey, StorageKey>
    /** The nodes hanging in some account's tree, every key ever made, every declaration and every save so far. */
    ghost var nodes: set<StorageKey>
    ghost var made: set<StorageKey>
    ghost var declared: set<Decl>
    ghost var log: seq<Save>

    ghost function Entry(n: StorageKey): (k: IndexKey) { (n.account, n.slot, n.offset, n.typeId) }

    /** A node is its account's root, or hangs where it was meant to go. */
    ghost predicate Placed(n: StorageKey)
      requires n in nodes
      reads this`roots, this`nodes, nodes`children
    {
      if n.isRoot then n.up == null && n.path == [] && n.account in roots && roots[n.account] == n
      else
        && n.up != null && n.up in nodes && n.account == n.up.account
        && n.Here() in n.up.children && n.up.children[n.Here()] == n
        && n.path == n.up.path + [n.Here()]
    }

    /** The children of a node are nodes made for it, under their own slot and offset. */
    ghost predicate ChildrenPlaced(n: StorageKey)
      requires n in nodes
      reads this`nodes, n`children
    {
      forall p :: p in n.children ==>
        n.children[p] in nodes && !n.children[p].isRoot && n.children[p].up == n && n.children[p].Here() == p
    }

    ghost predicate TreeValid()
      reads this`roots, this`nodes, nodes`children
    {
      && (forall a :: a in roots ==> roots[a] in nodes && roots[a].isRoot && roots[a].account == a)
      && (forall n {:trigger Placed(n)} :: n in nodes ==> Placed(n))
      && (forall n {:trigger ChildrenPlaced(n)} :: n in nodes ==> ChildrenPlaced(n))
    }

    /** The names on the way to a key. */
    ghost predicate Traced(n: StorageKey)
      reads this`made
    {
      if n.isRoot then n.up == null && n.names == []
      else n.up != null && n.up in made && n.account == n.up.account && n.names == n.up.names + [n.data]
    }

    /** A name leads to a key made for this node under that name; the key may be outside the tree. */
    ghost predicate ChildrenNamed(n: StorageKey)
      reads this`made, n`childrenIndex
    {
      forall d :: d in n.childrenIndex ==>
        var c := n.childrenIndex[d];
        c in made && !c.isRoot && c.up == n && c.data == d
    }

    /** The name of every child in the tree is taken. */
    ghost predicate PlacesNamed(n: StorageKey)
      reads n`children, n`childrenIndex
    {
      forall p :: p in n.children ==> n.children[p].data in n.childrenIndex
    }

    ghost predicate NamesValid()
      reads this`nodes, this`made, nodes`children, nodes`childrenIndex, made`childrenIndex
    {
      && nodes <= made
      && (forall n {:trigger Traced(n)} :: n in made ==> Traced(n))
      && (forall n {:trigger ChildrenNamed(n)} :: n in made ==> ChildrenNamed(n))
      && (forall n {:trigger PlacesNamed(n)} :: n in nodes ==> PlacesNamed(n))
    }

    /** Every entry is a tree node with exactly that account, slot, offset and type, and every node has an entry. */
    ghost predicate IndexValid()
      reads this`index, this`nodes
    {
      && (forall k :: k in index ==> index[k] in nodes && !index[k].isRoot && Entry(index[k]) == k)
      && (forall n :: n in nodes && !n.isRoot ==> Entry(n) in index)
    }

    /** Values were saved to roots and to holders of their entry only, and the history of a key under a call index is
        what was saved to it under that index, repeats collapsed. */
    ghost predicate LogValid()
      reads this`log, this`index, this`nodes, nodes`changes
    {
      && (forall s :: s in log ==> Live(s.key))
      && (forall n, i :: n in nodes ==> n.History(i) == Collapse(Saved(log, n, i)))
    }

    ghost predicate ShapeValid()
      reads this, nodes, made
    {
      TreeValid() && NamesValid() && IndexValid() && LogValid()
    }

    /** The node was declared under its parent. */
    ghost predicate DeclaredBy(n: StorageKey, x: Decl)
      reads this`roots, this`index
    {
      && x.account == n.account && ParentNode(x.account, x.parent) == n.up
      && x.place == n.Here() && x.typeId == n.typeId && x.data == n.data
    }

    /** The place of a declaration is filled. */
    ghost predicate HasPlace(x: Decl)
      reads this`roots, this`index, this`nodes, nodes`children
    {
      var n := ParentNode(x.account, x.parent);
      n != null && n in nodes && x.place in n.children
    }

    /** Its name leads somewhere. */
    ghost predicate HasName(x: Decl)
      reads this`roots, this`index, this`nodes, nodes`childrenIndex
    {
      var n := ParentNode(x.account, x.parent);
      n != null && n in nodes && x.data in n.childrenIndex
    }

    ghost predicate Filled(x: Decl)
      reads this`roots, this`index, this`nodes, nodes`children, nodes`childrenIndex
    {
      HasPlace(x) && HasName(x)
    }

    ghost predicate IsDeclared(n: StorageKey)
      reads this`roots, this`index, this`declared
    {
      exists x :: x in declared && DeclaredBy(n, x)
    }

    /** Every key was declared, every declaration has its place and name, and as long as the declarations are a layout
        the two routes agree and everything declared can be found. */
    ghost predicate DeclValid()
      requires ShapeValid()
      reads this, nodes, made
    {
      && (forall n {:trigger IsDeclared(n)} :: n in made && !n.isRoot ==> IsDeclared(n))
      && (forall x {:trigger Filled(x)} :: x in declared ==> Filled(x))
      && (Layout(declared) ==> Agree() && forall x :: x in declared ==> x.Entry() in index)
    }

    ghost predicate Valid()
      reads this, nodes, made
    {
      ShapeValid() && DeclValid()
    }

    // ---- the two routes

    /** findKey: nil when there is no entry. */
    function FindKey(account: Address, slot: Word, offset: Byte, typeId: Hash): (k: StorageKey?)
      reads this`index
    {
      if (account, slot, offset, typeId) in index then index[(account, slot, offset, typeId)] else null
    }

    /** The key reached from an account's root by names; null when a name is missing. */
    ghost function ByName(account: Address, names: seq<Name>): (r: StorageKey?)
      requires TreeValid() && NamesValid()
      reads this`roots, this`nodes, this`made, nodes`children, nodes`childrenIndex, made`childrenIndex
      ensures r != null ==> r in made && r.account == account && r.names == names
      decreases |names|
    {
      if names == [] then
        if account in roots then assert Traced(roots[account]); roots[account] else null
      else
        var p := ByName(account, names[..|names| - 1]);
        var last := names[|names| - 1];
        if p == null || last !in p.childrenIndex then null
        else
          assert ChildrenNamed(p) && Traced(p.childrenIndex[last]);
          assert names == names[..|names| - 1] + [last];
          p.childrenIndex[last]
    }

    /** The two routes agree: what a name path leads to is what its own slot, offset and type lead to, and what an
        entry holds is what its own name path leads to. */
    ghost predicate Agree()
      requires ShapeValid()
      reads this, nodes, made
    {
      && (forall a, names :: names != [] && ByName(a, names) != null ==>
            var m := ByName(a, names);
            FindKey(a, m.slot, m.offset, m.typeId) == m)
      && (forall k :: k in index ==> index[k].names != [] && ByName(k.0, index[k].names) == index[k])
    }

    /** A root, or the holder of its own entry: what a key can be saved under. */
    ghost predicate Live(n: StorageKey)
      reads this`index, this`nodes
    {
      n in nodes && (n.isRoot || (Entry(n) in index && index[Entry(n)] == n))
    }

    ghost predicate NamesLive(n: StorageKey)
      reads this`index, this`nodes, n`childrenIndex
    {
      forall d :: d in n.childrenIndex ==> Live(n.childrenIndex[d])
    }

    ghost predicate NamedByLive(n: StorageKey)
      reads this`index, this`nodes, nodes`childrenIndex
    {
      n.up != null && Live(n.up) && n.data in n.up.childrenIndex && n.up.childrenIndex[n.data] == n
    }

    /** Agreement one step at a time: names of live nodes lead to live nodes, and live nodes are so named. */
    ghost predicate Local()
      reads this`index, this`nodes, nodes`childrenIndex
    {
      && (forall n {:trigger NamesLive(n)} :: n in nodes && Live(n) ==> NamesLive(n))
      && (forall n {:trigger NamedByLive(n)} :: n in nodes && Live(n) && !n.isRoot ==> NamedByLive(n))
    }

    lemma WalkIsLive(account: Address, names: seq<Name>)
      requires ShapeValid() && Local()
      ensures ByName(account, names) != null ==> Live(ByName(account, names))
      decreases |names|
    {
      if names == [] {
        if account in roots {
          assert Placed(roots[account]);
        }
      } else {
        var p := ByName(account, names[..|names| - 1]);
        WalkIsLive(account, names[..|names| - 1]);
        if p != null {
          assert NamesLive(p);
        }
      }
    }

    /** Every live node is found under its own names. */
    lemma FoundByName(n: StorageKey)
      requires ShapeValid() && Local() && Live(n)
      ensures ByName(n.account, n.names) == n
      decreases |n.names|
    {
      assert Traced(n) && Placed(n);
      if !n.isRoot {
        assert NamedByLive(n);
        assert n.names[..|n.names| - 1] == n.up.names;
        FoundByName(n.up);
      }
    }

    lemma LocalAgrees()
      requires ShapeValid() && Local()
      ensures Agree()
    {
      forall a, names | names != [] && ByName(a, names) != null
        ensures var m := ByName(a, names); FindKey(a, m.slot, m.offset, m.typeId) == m
      {
        WalkIsLive(a, names);
        assert Traced(ByName(a, names));
      }
      forall k | k in index ensures index[k].names != [] && ByName(k.0, index[k].names) == index[k] {
        assert Traced(index[k]);
        FoundByName(index[k]);
      }
    }

    /** Under agreement a live node is found under its own names. */
    lemma LiveIsNamed(n: StorageKey)
      requires ShapeValid() && Agree() && Live(n)
      ensures ByName(n.account, n.names) == n
    {
      assert Traced(n) && Placed(n);
      if !n.isRoot {
        assert index[Entry(n)] == n;
      }
    }

    lemma NamedIsIndexed(a: Address, names: seq<Name>)
      requires ShapeValid() && Agree() && names != [] && ByName(a, names) != null
      ensures var m := ByName(a, names); FindKey(a, m.slot, m.offset, m.typeId) == m
    {
    }

    /** And what is found is live. */
    lemma NamedIsLive(a: Address, names: seq<Name>)
      requires ShapeValid() && Agree() && ByName(a, names) != null
      ensures Live(ByName(a, names))
    {
      var m := ByName(a, names);
      if names != [] {
        assert FindKey(a, m.slot, m.offset, m.typeId) == m;
      }
    }

    lemma AgreeingIsLocal()
      requires ShapeValid() && Agree()
      ensures Local()
    {
      forall n | Live(n) ensures NamesLive(n) {
        LiveIsNamed(n);
        forall d | d in n.childrenIndex ensures Live(n.childrenIndex[d]) {
          assert (n.names + [d])[..|n.names|] == n.names;
          NamedIsLive(n.account, n.names + [d]);
        }
      }
      forall n | Live(n) && !n.isRoot ensures NamedByLive(n) {
        LiveIsNamed(n);
        assert Traced(n);
        var before := n.names[..|n.names| - 1];
        assert ChildrenNamed(ByName(n.account, before));
        NamedIsLive(n.account, before);
      }
    }

    /** The routes agree on all lookups exactly when they do one step at a time. */
    lemma AgreeIffLocal()
      requires ShapeValid()
      ensures Agree() <==> Local()
    {
      if Agree() {
        AgreeingIsLocal();
      }
      if Local() {
        LocalAgrees();
      }
    }

    lemma MissingStaysMissing(account: Address, names: seq<Name>, k: nat)
      requires TreeValid() && NamesValid() && k <= |names|
      requires ByName(account, names[..k]) == null
      ensures ByName(account, names) == null
      decreases |names| - k
    {
      if k == |names| {
        assert names[..k] == names;
      } else {
        assert names[..k + 1][..k] == names[..k];
        MissingStaysMissing(account, names, k + 1);
      }
    }

    /** FindKeyIndices: the walk along the names. */
    method FindKeyIndices(account: Address, stateVarName: Name, indices: seq<Name>) returns (k: StorageKey?)
      requires Valid()
      ensures k == ByName(account, [stateVarName] + indices)
    {
      hide LogValid, DeclValid, IndexValid;
      ghost var names: seq<Name> := [stateVarName] + indices;
      if account !in roots {
        MissingStaysMissing(account, names, 0);
        return null;
      }
      var rootKey := roots[account];
      assert ByName(account, []) == rootKey;
      assert names[..1] == [stateVarName] && [stateVarName][..0] == [];
      if stateVarName !in rootKey.childrenIndex {
        MissingStaysMissing(account, names, 1);
        return null;
      }
      var cursor := rootKey.childrenIndex[stateVarName];
      for i := 0 to |indices|
        invariant cursor == ByName(account, names[..i + 1])
      {
        assert names[..i + 2][..i + 1] == names[..i + 1];
        if indices[i] !in cursor.childrenIndex {
          MissingStaysMissing(account, names, i + 2);
          return null;
        }
        cursor := cursor.childrenIndex[indices[i]];
      }
      assert names[..|indices| + 1] == names;
      return cursor;
    }

    constructor ()
      ensures Valid() && Agree()
      ensures roots == map[] && index == map[] && nodes == {} && made == {} && declared == {} && log == []
    {
      roots, index, nodes, made, declared, log := map[], map[], {}, {}, {}, [];
      new;
      LocalAgrees();
    }

    // ---- saving keys

    /** The node a key is saved under: the account's root, which may still be missing, or an indexed node. */
    function ParentNode(account: Address, parent: Option<(Word, Hash)>): (n: StorageKey?)
      reads this`roots, this`index
    {
      if parent == None then (if account in roots then roots[account] else null)
      else FindKey(account, parent.value.0, 0, parent.value.1)
    }

    /** The root of an account, made on first use. */
    method EnsureRoot(account: Address) returns (r: StorageKey)
      requires Valid()
      modifies this`roots, this`nodes, this`made
      ensures Valid() && account in roots && r == roots[account] && Live(r)
      ensures old(nodes) <= nodes && fresh(nodes - old(nodes)) && old(made) <= made && fresh(made - old(made))
      ensures account in old(roots) ==> roots == old(roots) && nodes == old(nodes) && made == old(made)
      ensures account !in old(roots) ==>
        && fresh(r) && roots == old(roots)[account := r] && nodes == old(nodes) + {r}
        && r.children == map[] && r.childrenIndex == map[] && r.changes == None
      ensures Agree() <==> old(Agree())
    {
      hide TreeValid, NamesValid, IndexValid, LogValid, Agree, Local, Live, IsDeclared, Filled;
      if account !in roots {
        AgreeIffLocal();
        r := new StorageKey.Root(account);
        roots := roots[account := r];
        nodes, made := nodes + {r}, made + {r};
        NewNodeKeepsLog(r);
        NewRootKeepsTree(r);
        NewRootKeepsNames(r);
        NewRootKeepsLocal(r);
        NewRootKeepsDecls(r);
        AgreeIffLocal();
      }
      r := roots[account];
      RootAccount(account);
    }

    /** An account gets its root. */
    twostate lemma NewRootKeepsTree(new r: StorageKey)
      requires old(TreeValid()) && fresh(r) && r.isRoot && r.account !in old(roots)
      requires r.up == null && r.path == [] && r.children == map[]
      requires roots == old(roots)[r.account := r] && nodes == old(nodes) + {r}
      requires forall m :: m in old(nodes) ==> m.children == old(m.children)
      ensures TreeValid()
    {
      forall m | m in nodes ensures Placed(m) && ChildrenPlaced(m) {
        if m != r {
          assert old(Placed(m)) && old(ChildrenPlaced(m));
        }
      }
    }

    twostate lemma NewRootKeepsNames(new r: StorageKey)
      requires old(NamesValid()) && fresh(r) && r.isRoot && r.up == null && r.names == []
      requires r.children == map[] && r.childrenIndex == map[]
      requires nodes == old(nodes) + {r} && made == old(made) + {r}
      requires forall m :: m in old(nodes) ==> m.children == old(m.children)
      requires forall m :: m in old(made) ==> m.childrenIndex == old(m.childrenIndex)
      ensures NamesValid()
    {
      forall m | m in made ensures Traced(m) && ChildrenNamed(m) {
        if m != r {
          assert old(Traced(m)) && old(ChildrenNamed(m));
        }
      }
      forall m | m in nodes ensures PlacesNamed(m) {
        if m != r {
          assert old(PlacesNamed(m));
        }
      }
    }

    twostate lemma NewRootKeepsLocal(new r: StorageKey)
      requires old(IndexValid()) && old(NamesValid()) && old(TreeValid()) && NamesValid()
      requires fresh(r) && r.isRoot && r.childrenIndex == map[]
      requires nodes == old(nodes) + {r} && index == old(index)
      requires forall m :: m in old(nodes) ==> m.childrenIndex == old(m.childrenIndex)
      ensures IndexValid() && (Local() <==> old(Local()))
    {
      assert forall m :: m in old(nodes) ==> (Live(m) <==> old(Live(m)));
      forall m | m in old(nodes)
        ensures (NamesLive(m) <==> old(NamesLive(m)))
        ensures NamedByLive(m) <==> old(NamedByLive(m))
      {
        assert old(ChildrenNamed(m)) && old(Placed(m));
        assert old(allocated(m.up));
      }
      assert NamesLive(r);
      if Local() {
        forall m | m in old(nodes) && old(Live(m)) ensures old(NamesLive(m)) && (!m.isRoot ==> old(NamedByLive(m))) {
          assert NamesLive(m) && (!m.isRoot ==> NamedByLive(m));
        }
      }
      if old(Local()) {
        forall m | Live(m) ensures NamesLive(m) && (!m.isRoot ==> NamedByLive(m)) {
          if m != r {
            assert old(NamesLive(m)) && (!m.isRoot ==> old(NamedByLive(m)));
          }
        }
      }
    }

    twostate lemma NewRootKeepsDecls(new r: StorageKey)
      requires fresh(r) && r.isRoot && r.account !in old(roots) && old(NamesValid())
      requires roots == old(roots)[r.account := r] && nodes == old(nodes) + {r} && made == old(made) + {r}
      requires index == old(index) && declared == old(declared)
      requires forall m :: m in old(nodes) ==> m.children == old(m.children) && m.childrenIndex == old(m.childrenIndex)
      requires forall n :: n in old(made) && !n.isRoot ==> old(IsDeclared(n))
      requires forall x :: x in old(declared) ==> old(Filled(x))
      ensures forall n :: n in made && !n.isRoot ==> IsDeclared(n)
      ensures forall x :: x in declared ==> Filled(x)
    {
      forall x | x in declared ensures Filled(x) {
        assert old(Filled(x)) && old(HasPlace(x)) && old(HasName(x));
      }
      forall n | n in made && !n.isRoot ensures IsDeclared(n) {
        assert old(IsDeclared(n)) && old(Traced(n));
        var x :| x in old(declared) && old(DeclaredBy(n, x));
        assert DeclaredBy(n, x);
      }
    }

    /** A node without saves joins the tree. */
    twostate lemma NewNodeKeepsLog(new n: StorageKey)
      requires old(LogValid()) && fresh(n) && n.changes == None
      requires nodes == old(nodes) + {n} && log == old(log)
      requires old(index.Keys) <= index.Keys && forall e :: e in old(index) ==> index[e] == old(index)[e]
      requires forall m :: m in old(nodes) ==> m.changes == old(m.changes)
      ensures LogValid()
    {
      forall i: nat ensures Saved(log, n, i) == [] {
        NeverSaved(log, n, i);
      }
      forall m, i: nat | m in old(nodes) ensures m.History(i) == Collapse(Saved(log, m, i)) {
        assert old(m.History(i)) == m.History(i);
      }
    }

    /** Attaching a key under a node goes the way the two routes can follow: at a place that is taken the name must be
        known, at a free place the name must be taken exactly when the entry is. */
    ghost predicate Conforms(target: StorageKey, k: IndexKey, data: Name)
      reads this`index, target`children, target`childrenIndex
    {
      if (k.1, k.2) in target.children then data in target.childrenIndex
      else data in target.childrenIndex <==> k in index
    }

    /** The rest of saveKey once the parent node is known: AddChild, then addKey.  The routes agree afterwards exactly
        when they did before and the key conforms. */
    method Attach(target: StorageKey, account: Address, slot: Word, offset: Byte, typeId: Hash, data: Name,
                  ghost parent: Option<(Word, Hash)>)
      requires Valid() && Live(target) && target.account == account && ParentNode(account, parent) == target
      modifies this`index, this`nodes, this`made, this`declared, target`children, target`childrenIndex
      ensures Valid()
      ensures old(nodes) <= nodes && fresh(nodes - old(nodes)) && old(made) <= made && fresh(made - old(made))
      ensures declared == old(declared) + {Decl(account, parent, (slot, offset), typeId, data)}
      ensures target.children.Keys == old(target.children.Keys) + {(slot, offset)}
      ensures NameAdded(target, data, (slot, offset), typeId)
      ensures index.Keys == old(index.Keys)
                + if (slot, offset) in old(target.children) then {} else {(account, slot, offset, typeId)}
      ensures forall e :: e in old(index) ==> index[e] == old(index)[e]
      ensures Agree() <==> old(Agree()) && old(Conforms(target, (account, slot, offset, typeId), data))
    {
      hide TreeValid, NamesValid, IndexValid, LogValid, Agree, Local, Live, Conforms, IsDeclared, Filled, Layout, Hung;
      ghost var x := Decl(account, parent, (slot, offset), typeId, data);
      AgreeIffLocal();
      if Layout(declared + {x}) {
        LayoutShrinks(declared, declared + {x});
        LayoutConforms(target, x);
      }
      LiveInTree(target);
      ghost var key := Hang(target, account, slot, offset, typeId, data, x);
      HungIsValid(target, key, x);
      HungKeys(target, key, x);
      AgreeIffLocal();
    }

    /** The name leads somewhere: to where it did before, or to a key with this place and type. */
    twostate predicate NameAdded(target: StorageKey, new data: Name, new place: Place, new typeId: Hash)
      reads target
    {
      && target.childrenIndex.Keys == old(target.childrenIndex.Keys) + {data}
      && (forall d :: d in old(target.childrenIndex) ==> target.childrenIndex[d] == old(target.childrenIndex)[d])
      && (data !in old(target.childrenIndex) ==>
            fresh(target.childrenIndex[data])
            && target.childrenIndex[data].Here() == place && target.childrenIndex[data].typeId == typeId)
    }

    twostate lemma HungKeys(target: StorageKey, new n: StorageKey, new x: Decl)
      requires fresh(n) && Hung(target, n, x)
      ensures target.children.Keys == old(target.children.Keys) + {x.place}
      ensures NameAdded(target, x.data, x.place, x.typeId)
      ensures index.Keys == old(index.Keys) + if x.place in old(target.children) then {} else {x.Entry()}
      ensures forall e :: e in old(index) ==> index[e] == old(index)[e]
    {
    }

    /** The stores of saveKey: the new key is named under the target unless the name is taken, and hung there and
        indexed unless the place or the entry is taken. */
    method Hang(target: StorageKey, account: Address, slot: Word, offset: Byte, typeId: Hash, data: Name, ghost x: Decl)
      returns (ghost key: StorageKey)
      requires TreeValid() && IndexValid() && target in nodes && target in made && target.account == account
      requires x.account == account && x.place == (slot, offset) && x.typeId == typeId && x.data == data
      modifies this`index, this`nodes, this`made, this`declared, target`children, target`childrenIndex
      ensures fresh(key) && Hung(target, key, x)
      ensures nodes == old(nodes) || nodes == old(nodes) + {key}
      ensures made == old(made) + {key} && declared == old(declared) + {x}
    {
      hide TreeValid, IndexValid;
      if (slot, offset) in target.children {
        ChildBelongs(target, (slot, offset));
      }
      var newKey := new StorageKey.Branch(slot, offset, typeId, data, target);
      var child := target.AddChild(newKey);
      AddKey(account, child);
      key, made, declared := newKey, made + {newKey}, declared + {x};
      if child == newKey {
        nodes := nodes + {newKey};
      }
    }

    twostate predicate Hung(target: StorageKey, new n: StorageKey, new x: Decl)
      reads this, target, n
    {
      && !n.isRoot && n.up == target && n.account == target.account
      && n.names == target.names + [n.data] && n.path == target.path + [n.Here()]
      && n.children == map[] && n.childrenIndex == map[] && n.changes == None
      && x.place == n.Here() && x.typeId == n.typeId && x.data == n.data && x.account == n.account
      && made == old(made) + {n} && declared == old(declared) + {x} && log == old(log) && roots == old(roots)
      && target.childrenIndex == (if n.data in old(target.childrenIndex) then old(target.childrenIndex)
                                  else old(target.childrenIndex)[n.data := n])
      && (if n.Here() in old(target.children)
          then nodes == old(nodes) && target.children == old(target.children) && index == old(index)
          else && nodes == old(nodes) + {n} && target.children == old(target.children)[n.Here() := n]
               && index == if Entry(n) in old(index) then old(index) else old(index)[Entry(n) := n])
    }

    /** No other key has changed. */
    twostate predicate OthersSame(target: StorageKey)
      reads this, made
    {
      forall m :: m in made && m in old(made) ==>
        && m.changes == old(m.changes)
        && (m != target ==> m.children == old(m.children) && m.childrenIndex == old(m.childrenIndex))
    }

    twostate lemma HungIsValid(target: StorageKey, new n: StorageKey, new x: Decl)
      requires old(ShapeValid()) && old(Live(target)) && fresh(n) && Hung(target, n, x) && OthersSame(target)
      requires old(ParentNode(x.account, x.parent)) == target
      requires forall m :: m in old(made) && !m.isRoot ==> old(IsDeclared(m))
      requires forall y :: y in old(declared) ==> old(Filled(y))
      ensures ShapeValid()
      ensures forall m :: m in made && !m.isRoot ==> IsDeclared(m)
      ensures forall y :: y in declared ==> Filled(y)
      ensures Local() <==> old(Local()) && old(Conforms(target, x.Entry(), x.data))
    {
      hide TreeValid, NamesValid, IndexValid, LogValid, Local, Conforms, IsDeclared, Filled;
      assert old(nodes) <= old(made) by { HungInMade(); }
      NamesKept(target, n);
      if n.Here() in old(target.children) {
        SameNodesKeepTree(target);
        OldPlaceLocalIff(target, n, x.Entry(), x.data);
      } else {
        NewNodeKeepsLog(n);
        NewNodeKeepsTree(target, n);
        IndexKept(n);
        NewPlaceLocalIff(target, n, x.Entry(), x.data);
      }
      KeyDeclared(target, n, x);
      FilledStays(target, x);
    }

    twostate lemma FilledStays(target: StorageKey, new x: Decl)
      requires target in old(nodes) && old(nodes) <= nodes && roots == old(roots) && declared == old(declared) + {x}
      requires old(index.Keys) <= index.Keys && forall e :: e in old(index) ==> index[e] == old(index)[e]
      requires old(ParentNode(x.account, x.parent)) == target
      requires x.place in target.children && x.data in target.childrenIndex
      requires forall m :: m in old(nodes) ==>
        old(m.children.Keys) <= m.children.Keys && old(m.childrenIndex.Keys) <= m.childrenIndex.Keys
      requires forall y :: y in old(declared) ==> old(Filled(y))
      ensures forall y :: y in declared ==> Filled(y)
    {
      forall y | y in declared ensures Filled(y) {
        if y != x {
          assert old(Filled(y)) && old(HasPlace(y)) && old(HasName(y));
        }
      }
    }

    twostate lemma HungInMade()
      requires old(NamesValid())
      ensures old(nodes) <= old(made)
    {
    }

    twostate lemma SameNodesKeepTree(target: StorageKey)
      requires old(TreeValid()) && old(LogValid()) && old(IndexValid()) && roots == old(roots) && nodes == old(nodes)
      requires index == old(index) && log == old(log)
      requires forall m :: m in nodes ==> m.children == old(m.children) && m.changes == old(m.changes)
      ensures TreeValid() && LogValid() && IndexValid()
    {
      forall m | m in nodes ensures Placed(m) && ChildrenPlaced(m) {
        assert old(Placed(m)) && old(ChildrenPlaced(m));
      }
      forall m, i: nat | m in nodes ensures m.History(i) == Collapse(Saved(log, m, i)) {
        assert old(m.History(i)) == m.History(i);
      }
    }

    lemma LiveInTree(n: StorageKey)
      requires ShapeValid() && Live(n)
      ensures n in nodes && n in made
    {
    }

    lemma ChildBelongs(n: StorageKey, p: Place)
      requires TreeValid() && IndexValid() && n in nodes && p in n.children
      ensures n.children[p] in nodes && !n.children[p].isRoot && Entry(n.children[p]) in index
      ensures n.children[p].account == n.account && n.children[p].Here() == p
    {
      assert ChildrenPlaced(n) && Placed(n.children[p]);
    }

    /** A key is named, and perhaps hung into the tree. */
    twostate lemma NamesKept(target: StorageKey, new n: StorageKey)
      requires old(NamesValid()) && target in old(nodes) && fresh(n)
      requires !n.isRoot && n.up == target && n.account == target.account && n.names == target.names + [n.data]
      requires n.children == map[] && n.childrenIndex == map[] && made == old(made) + {n}
      requires target.childrenIndex == if n.data in old(target.childrenIndex) then old(target.childrenIndex)
                                       else old(target.childrenIndex)[n.data := n]
      requires if n.Here() in old(target.children) then nodes == old(nodes) && target.children == old(target.children)
               else nodes == old(nodes) + {n} && target.children == old(target.children)[n.Here() := n]
      requires forall m :: m in old(made) && m != target ==> m.childrenIndex == old(m.childrenIndex)
      requires forall m :: m in old(nodes) && m != target ==> m.children == old(m.children)
      ensures NamesValid()
    {
      forall m | m in made ensures Traced(m) && ChildrenNamed(m) {
        if m != n {
          assert old(Traced(m)) && old(ChildrenNamed(m));
        }
      }
      forall m | m in nodes ensures PlacesNamed(m) {
        if m != n {
          assert old(PlacesNamed(m));
        }
      }
    }

    /** At a free place. */
    twostate lemma NewPlaceLocalIff(target: StorageKey, new n: StorageKey, new k: IndexKey, new data: Name)
      requires k == Entry(n) && data == n.data
      requires old(IndexValid()) && old(NamesValid()) && old(TreeValid()) && old(Live(target)) && fresh(n)
      requires nodes == old(nodes) + {n} && !n.isRoot && n.up == target && n.childrenIndex == map[]
      requires n.Here() !in old(target.children)
      requires target.childrenIndex == if data in old(target.childrenIndex) then old(target.childrenIndex)
                                       else old(target.childrenIndex)[data := n]
      requires index == if k in old(index) then old(index) else old(index)[k := n]
      requires forall m :: m in old(nodes) && m != target ==> m.childrenIndex == old(m.childrenIndex)
      ensures Local() <==> old(Local()) && old(Conforms(target, k, data))
    {
      assert old(ChildrenNamed(target)) && Live(target);
      assert Live(n) <==> k !in old(index);
      if data !in old(target.childrenIndex) && k in old(index) {
        assert target.childrenIndex[data] == n && !NamesLive(target);
      } else if data in old(target.childrenIndex) && k !in old(index) {
        assert target.childrenIndex[data] != n && !NamedByLive(n);
      } else {
        if old(Local()) {
          forall m | Live(m) ensures NamesLive(m) && (!m.isRoot ==> NamedByLive(m)) {
            if m != n {
              assert old(Live(m));
              LocalStays(m, n, target, data);
            }
          }
        }
        if Local() {
          forall m | m in old(nodes) && old(Live(m)) ensures old(NamesLive(m)) && (!m.isRoot ==> old(NamedByLive(m))) {
            LocalBefore(m, n, target, data);
          }
        }
      }
    }

    /** Live nodes stay live and keep the names that lead to them. */
    twostate lemma LocalStays(m: StorageKey, new n: StorageKey, new target: StorageKey, new data: Name)
      requires old(IndexValid()) && old(NamesValid()) && old(TreeValid()) && old(Local()) && old(Live(m)) && fresh(n)
      requires target in old(nodes) && nodes == old(nodes) + {n}
      requires Live(n) || data in old(target.childrenIndex)
      requires target.childrenIndex == if data in old(target.childrenIndex) then old(target.childrenIndex)
                                       else old(target.childrenIndex)[data := n]
      requires index == if Entry(n) in old(index) then old(index) else old(index)[Entry(n) := n]
      requires forall o :: o in old(nodes) && o != target ==> o.childrenIndex == old(o.childrenIndex)
      ensures NamesLive(m) && (!m.isRoot ==> NamedByLive(m))
    {
      assert old(NamesLive(m)) && (!m.isRoot ==> old(NamedByLive(m)));
      assert forall o :: o in old(nodes) && old(Live(o)) ==> Live(o);
    }

    /** Nothing that led astray before is mended. */
    twostate lemma LocalBefore(m: StorageKey, new n: StorageKey, new target: StorageKey, new data: Name)
      requires old(IndexValid()) && old(NamesValid()) && old(TreeValid()) && Local() && old(Live(m)) && fresh(n)
      requires target in old(nodes) && nodes == old(nodes) + {n}
      requires target.childrenIndex == if data in old(target.childrenIndex) then old(target.childrenIndex)
                                       else old(target.childrenIndex)[data := n]
      requires index == if Entry(n) in old(index) then old(index) else old(index)[Entry(n) := n]
      requires forall o :: o in old(nodes) && o != target ==> o.childrenIndex == old(o.childrenIndex)
      ensures old(NamesLive(m)) && (!m.isRoot ==> old(NamedByLive(m)))
    {
      assert Live(m) && NamesLive(m) && (!m.isRoot ==> NamedByLive(m));
      assert old(ChildrenNamed(m)) && old(Placed(m));
      assert forall o :: o in old(nodes) && Live(o) ==> old(Live(o));
      forall d | d in old(m.childrenIndex) ensures old(Live(m.childrenIndex[d])) {
        assert m.childrenIndex[d] == old(m.childrenIndex)[d];
      }
    }

    /** At a place that is taken. */
    twostate lemma OldPlaceLocalIff(target: StorageKey, new n: StorageKey, new k: IndexKey, new data: Name)
      requires k == Entry(n) && data == n.data && old(Live(target)) && old(NamesValid()) && fresh(n)
      requires nodes == old(nodes) && index == old(index) && n.Here() in old(target.children)
      requires target.childrenIndex == if data in old(target.childrenIndex) then old(target.childrenIndex)
                                       else old(target.childrenIndex)[data := n]
      requires forall m :: m in old(nodes) && m != target ==> m.childrenIndex == old(m.childrenIndex)
      ensures Local() <==> old(Local()) && old(Conforms(target, k, data))
    {
      assert Live(target);
      if data in old(target.childrenIndex) {
        forall m | m in nodes && Live(m)
          ensures NamesLive(m) <==> old(NamesLive(m))
          ensures NamedByLive(m) <==> old(NamedByLive(m))
        {
        }
        assert forall m :: m in nodes ==> (Live(m) <==> old(Live(m)));
      } else {
        assert target.childrenIndex[data] == n && !NamesLive(target);
      }
    }

    /** The new key is declared, and the others stay so. */
    twostate lemma KeyDeclared(target: StorageKey, new n: StorageKey, new x: Decl)
      requires old(NamesValid()) && fresh(n)
      requires made == old(made) + {n} && roots == old(roots) && declared == old(declared) + {x}
      requires old(index.Keys) <= index.Keys && forall e :: e in old(index) ==> index[e] == old(index)[e]
      requires old(ParentNode(x.account, x.parent)) == target == n.up
      requires x.account == n.account && x.place == n.Here() && x.typeId == n.typeId && x.data == n.data
      requires forall m :: m in old(made) && !m.isRoot ==> old(IsDeclared(m))
      ensures forall m :: m in made && !m.isRoot ==> IsDeclared(m)
    {
      assert DeclaredBy(n, x);
      forall m | m in old(made) && !m.isRoot ensures IsDeclared(m) {
        assert old(IsDeclared(m)) && old(Traced(m));
        var y :| y in old(declared) && old(DeclaredBy(m, y));
        assert DeclaredBy(m, y);
      }
    }

    lemma ParentUnique(account: Address, p: Option<(Word, Hash)>, q: Option<(Word, Hash)>)
      requires TreeValid() && IndexValid()
      requires ParentNode(account, p) != null && ParentNode(account, p) == ParentNode(account, q)
      ensures p == q && ParentNode(account, p).account == account
    {
    }

    /** While the declarations are a layout, every further one that fits it conforms. */
    lemma LayoutConforms(target: StorageKey, x: Decl)
      requires Valid() && Live(target) && ParentNode(x.account, x.parent) == target && Layout(declared + {x})
      ensures Conforms(target, x.Entry(), x.data)
      ensures x.place in target.children ==> x.Entry() in index
    {
      LayoutShrinks(declared, declared + {x});
      AgreeIffLocal();
      ParentUnique(x.account, x.parent, x.parent);
      if x.place in target.children {
        TakenPlaceConforms(target, x);
      } else {
        FreePlaceConforms(target, x);
      }
    }

    lemma TakenPlaceConforms(target: StorageKey, x: Decl)
      requires Valid() && Live(target) && ParentNode(x.account, x.parent) == target && Layout(declared + {x})
      requires x.place in target.children && target.account == x.account
      ensures x.data in target.childrenIndex && x.Entry() in index
    {
      hide Agree;
      var c := target.children[x.place];
      assert ChildrenPlaced(target) && Placed(c) && PlacesNamed(target) && IsDeclared(c);
      var y :| y in declared && DeclaredBy(c, y);
      ParentUnique(x.account, x.parent, y.parent);
      assert x in declared + {x} && y in declared + {x};
    }

    lemma FreePlaceConforms(target: StorageKey, x: Decl)
      requires Valid() && Local() && Live(target) && ParentNode(x.account, x.parent) == target && Layout(declared + {x})
      requires x.place !in target.children && target.account == x.account
      ensures x.data !in target.childrenIndex && x.Entry() !in index
    {
      if x.data in target.childrenIndex {
        NamedAtPlace(target, x);
      }
      if x.Entry() in index {
        IndexedAtPlace(target, x);
      }
    }

    lemma NamedAtPlace(target: StorageKey, x: Decl)
      requires Valid() && Local() && Live(target) && ParentNode(x.account, x.parent) == target && Layout(declared + {x})
      requires x.data in target.childrenIndex && target.account == x.account
      ensures x.place in target.children
    {
      hide Agree;
      var m := target.childrenIndex[x.data];
      assert NamesLive(target) && ChildrenNamed(target) && Placed(m) && IsDeclared(m);
      var y :| y in declared && DeclaredBy(m, y);
      ParentUnique(x.account, x.parent, y.parent);
      assert x in declared + {x} && y in declared + {x};
    }

    lemma IndexedAtPlace(target: StorageKey, x: Decl)
      requires Valid() && ParentNode(x.account, x.parent) == target && Layout(declared + {x})
      requires x.Entry() in index && target in nodes
      ensures x.place in target.children
    {
      hide Agree;
      var m := index[x.Entry()];
      assert Placed(m) && IsDeclared(m);
      var y :| y in declared && DeclaredBy(m, y);
      assert x in declared + {x} && y in declared + {x} && x.Entry() == y.Entry();
    }

    /** A node is hung into a free place. */
    twostate lemma NewNodeKeepsTree(target: StorageKey, new n: StorageKey)
      requires old(TreeValid()) && target in old(nodes) && fresh(n)
      requires roots == old(roots) && nodes == old(nodes) + {n}
      requires !n.isRoot && n.up == target && n.account == target.account && n.children == map[]
      requires n.path == target.path + [n.Here()]
      requires n.Here() !in old(target.children) && target.children == old(target.children)[n.Here() := n]
      requires forall m :: m in old(nodes) && m != target ==> m.children == old(m.children)
      ensures TreeValid()
    {
      forall m | m in nodes ensures Placed(m) && ChildrenPlaced(m) {
        if m != n {
          assert old(Placed(m)) && old(ChildrenPlaced(m));
        }
      }
    }

    twostate lemma IndexKept(new n: StorageKey)
      requires old(IndexValid()) && nodes == old(nodes) + {n} && !n.isRoot
      requires index == if Entry(n) in old(index) then old(index) else old(index)[Entry(n) := n]
      ensures IndexValid()
      ensures n in old(nodes) ==> index == old(index)
    {
    }

    /** addKey: the first node under a slot, offset and type keeps the entry. */
    method AddKey(account: Address, key: StorageKey)
      modifies this`index
      ensures var k := (account, key.slot, key.offset, key.typeId);
        index == if k in old(index) then old(index) else old(index)[k := key]
    {
      var k := (account, key.slot, key.offset, key.typeId);
      if k !in index {
        index := index[k := key];
      }
    }

    /** `uint8(offset)` with a missing offset read as zero. */
    static function OffsetOf(offset: Option<Word>): (o: Word) {
      if offset == None then 0 else offset.value
    }

    static function ParentId(parent: Option<Word>, parentTypeId: Hash): (p: Option<(Word, Hash)>) {
      if parent == None then None else Some((parent.value, parentTypeId))
    }

    /** A place is filled exactly when it has been given out. */
    lemma PlaceIffTaken(x: Decl)
      requires Valid()
      ensures HasPlace(x) <==> Taken(declared, x)
    {
      hide Agree, Layout;
      if HasPlace(x) {
        var n := ParentNode(x.account, x.parent);
        assert ChildrenPlaced(n) && Placed(n.children[x.place]) && IsDeclared(n.children[x.place]);
        var y :| y in declared && DeclaredBy(n.children[x.place], y);
        ParentUnique(x.account, x.parent, y.parent);
      }
      if Taken(declared, x) {
        var y :| y in declared && y.account == x.account && y.parent == x.parent && y.place == x.place;
        assert Filled(y);
      }
    }

    /** A name leads somewhere exactly when it has been given out. */
    lemma NameIffTaken(x: Decl)
      requires Valid()
      ensures HasName(x) <==> NameTaken(declared, x)
    {
      hide Agree, Layout;
      if HasName(x) {
        var n := ParentNode(x.account, x.parent);
        ParentInTree(x.account, x.parent);
        assert ChildrenNamed(n) && Traced(n.childrenIndex[x.data]) && IsDeclared(n.childrenIndex[x.data]);
        var y :| y in declared && DeclaredBy(n.childrenIndex[x.data], y);
        ParentUnique(x.account, x.parent, y.parent);
      }
      if NameTaken(declared, x) {
        var y :| y in declared && y.account == x.account && y.parent == x.parent && y.data == x.data;
        assert Filled(y);
      }
    }

    /** A key conforms exactly when its declaration fits those before it. */
    lemma ConformsIffFits(target: StorageKey, x: Decl)
      requires Valid() && ParentNode(x.account, x.parent) == target && target in nodes
      ensures Conforms(target, x.Entry(), x.data) <==> Fits(declared, index.Keys, x)
    {
      hide Agree, Layout, Taken, NameTaken;
      PlaceIffTaken(x);
      NameIffTaken(x);
    }

    /** The first declaration of an account always fits. */
    lemma FirstFits(x: Decl)
      requires Valid() && ParentNode(x.account, x.parent) == null && x.parent == None
      ensures Fits(declared, index.Keys, x) && !Taken(declared, x)
    {
      hide Agree, Layout, Taken, NameTaken;
      PlaceIffTaken(x);
      NameIffTaken(x);
      NewRootConforms(x);
    }

    /** The parent of a key: the account's root, made on first use, or an indexed key. */
    method Locate(account: Address, parent: Option<Word>, parentTypeId: Hash, ghost x: Decl)
      returns (target: StorageKey?)
      requires Valid() && x.account == account && x.parent == ParentId(parent, parentTypeId)
      modifies this`roots, this`nodes, this`made
      ensures Valid() && target == ParentNode(account, x.parent)
      ensures old(nodes) <= nodes && fresh(nodes - old(nodes)) && old(made) <= made && fresh(made - old(made))
      ensures target == null <==> parent.Some? && old(FindKey(account, parent.value, 0, parentTypeId)) == null
      ensures target == null ==> unchanged(this)
      ensures target != null ==> Live(target) && target.account == account
      ensures target != null && target !in old(nodes) ==>
        fresh(target) && target.children == map[] && target.childrenIndex == map[]
      ensures forall a :: a in old(roots) ==> a in roots && roots[a] == old(roots)[a]
      ensures Agree() <==> old(Agree())
      ensures target != null ==>
        && (Conforms(target, x.Entry(), x.data) <==> Fits(declared, index.Keys, x))
        && (x.place in target.children <==> Taken(declared, x))
    {
      hide TreeValid, NamesValid, IndexValid, LogValid, DeclValid, Agree, Taken, Fits, Conforms, Live;
      if parent == None {
        if account !in roots {
          FirstFits(x);
          NewRootConforms(x);
        } else {
          RootAccount(account);
          LiveInTree(roots[account]);
        }
        target := EnsureRoot(account);
        RootAccount(account);
        LiveInTree(target);
      } else {
        target := FindKey(account, parent.value, 0, parentTypeId);
        if target == null {
          return;
        }
        FoundIsLive(account, parent.value, 0, parentTypeId);
        LiveInTree(target);
      }
      ConformsIffFits(target, x);
      PlaceIffTaken(x);
    }

    /** saveKey: fails exactly for an offset beyond 31 or an unknown parent, and then changes nothing.  A key saved at a
        free place can be found from then on; at a taken place no entry changes. */
    method SaveKey(account: Address, parent: Option<Word>, self: Word, offset: Option<Word>,
                   typeId: Hash, parentTypeId: Hash, data: Name) returns (ok: bool)
      requires Valid()
      modifies this`roots, this`index, this`nodes, this`made, this`declared, nodes`children, nodes`childrenIndex
      ensures Valid()
      ensures old(nodes) <= nodes && fresh(nodes - old(nodes)) && old(made) <= made && fresh(made - old(made))
      ensures !ok <==>
        OffsetOf(offset) > 31 || (parent.Some? && old(FindKey(account, parent.value, 0, parentTypeId)) == null)
      ensures !ok ==> unchanged(this) && unchanged(nodes) && (Agree() <==> old(Agree()))
      ensures ok ==>
        var x := Decl(account, ParentId(parent, parentTypeId), (self, OffsetOf(offset)), typeId, data);
        && declared == old(declared) + {x}
        && index.Keys == old(index.Keys) + (if Taken(old(declared), x) then {} else {x.Entry()})
        && (Agree() <==> old(Agree()) && Fits(old(declared), old(index.Keys), x))
      ensures forall e :: e in old(index) ==> e in index && index[e] == old(index)[e]
      ensures forall a :: a in old(roots) ==> a in roots && roots[a] == old(roots)[a]
      ensures ok ==>
        var n := ParentNode(account, ParentId(parent, parentTypeId));
        && n != null && n in nodes && (self, OffsetOf(offset)) in n.children && data in n.childrenIndex
        && (n in old(nodes) ==> NameAdded(n, data, (self, OffsetOf(offset)), typeId))
        && (n !in old(nodes) ==>
              && n.childrenIndex.Keys == {data}
              && n.childrenIndex[data].Here() == (self, OffsetOf(offset)) && n.childrenIndex[data].typeId == typeId)
    {
      hide TreeValid, NamesValid, IndexValid, LogValid, DeclValid, Agree, Taken, Fits, Conforms, Live;
      var offsetU8: Byte := 0;
      if offset.Some? {
        if offset.value > 31 {
          return false;
        }
        offsetU8 := offset.value;
      }
      ghost var x := Decl(account, ParentId(parent, parentTypeId), (self, offsetU8), typeId, data);
      var target := Locate(account, parent, parentTypeId, x);
      if target == null {
        return false;
      }
      LiveInTree(target);
      Attach(target, account, self, offsetU8, typeId, data, x.parent);
      return true;
    }

    lemma RootAccount(account: Address)
      requires ShapeValid() && account in roots
      ensures roots[account].account == account && Live(roots[account])
    {
      assert Placed(roots[account]);
    }

    lemma FoundIsLive(account: Address, slot: Word, offset: Byte, typeId: Hash)
      requires IndexValid() && FindKey(account, slot, offset, typeId) != null
      ensures var n := FindKey(account, slot, offset, typeId); Live(n) && n.account == account
    {
    }

    lemma ParentInTree(account: Address, parent: Option<(Word, Hash)>)
      requires ShapeValid() && ParentNode(account, parent) != null
      ensures ParentNode(account, parent) in nodes && ParentNode(account, parent).account == account
    {
    }

    /** An account without a root has no entries. */
    lemma NewRootConforms(x: Decl)
      requires ShapeValid() && x.account !in roots
      ensures x.Entry() !in index
    {
      IndexedHasRoot(x.account, x.place.0, x.place.1, x.typeId);
    }

    // ---- saving values

    /** saveChange: fails exactly for an offset beyond 31, an unknown account or an unknown key. */
    method SaveChange(account: Address, self: Word, offset: Option<Word>, typeId: Hash, callIdx: nat, newVal: Name)
      returns (ok: bool)
      requires Valid()
      modifies this`log, nodes`changes, nodes`nodeType
      ensures Valid()
      ensures ok <==> OffsetOf(offset) <= 31 && FindKey(account, self, OffsetOf(offset), typeId) != null
      ensures ok ==> log == old(log) + [Save(FindKey(account, self, OffsetOf(offset), typeId), callIdx, newVal)]
      ensures !ok ==> log == old(log) && unchanged(nodes)
      ensures Agree() <==> old(Agree())
    {
      var offsetU8: Byte := 0;
      if offset.Some? {
        if offset.value > 31 {
          return false;
        }
        offsetU8 := offset.value;
      }
      if account !in roots {
        IndexedHasRoot(account, self, offsetU8, typeId);
        return false;
      }
      var selfNode := FindKey(account, self, offsetU8, typeId);
      if selfNode == null {
        return false;
      }
      FoundIsLive(account, self, offsetU8, typeId);
      Journal(selfNode, callIdx, newVal);
      return true;
    }

    lemma FoundAsNamed(account: Address, slot: Word, offset: Byte, typeId: Hash)
      requires Valid() && FindKey(account, slot, offset, typeId) != null
      ensures var n := FindKey(account, slot, offset, typeId);
        !n.isRoot && n.account == account && n.slot == slot && n.offset == offset && n.typeId == typeId
    {
    }

    lemma RootOf(account: Address)
      requires Valid() && account in roots
      ensures roots[account].isRoot && roots[account].account == account
    {
    }

    /** An indexed key's account has a root, so that check alone never rejects a known key. */
    lemma IndexedHasRoot(account: Address, slot: Word, offset: Byte, typeId: Hash)
      requires ShapeValid()
      ensures FindKey(account, slot, offset, typeId) != null ==> account in roots
    {
      if FindKey(account, slot, offset, typeId) != null {
        NodeHasRoot(FindKey(account, slot, offset, typeId));
      }
    }

    lemma NodeHasRoot(n: StorageKey)
      requires TreeValid() && n in nodes
      ensures n.account in roots
      decreases |n.path|
    {
      assert Placed(n);
      if !n.isRoot {
        NodeHasRoot(n.up);
      }
    }

    /** A value goes into a node's history and into the log. */
    method Journal(n: StorageKey, callIdx: nat, newVal: Name)
      requires Valid() && Live(n)
      modifies this`log, n`changes, n`nodeType
      ensures Valid()
      ensures log == old(log) + [Save(n, callIdx, newVal)]
      ensures Agree() <==> old(Agree())
    {
      hide TreeValid, NamesValid, IndexValid, Agree, Local;
      AgreeIffLocal();
      n.JournalChanges(callIdx, newVal);
      log := log + [Save(n, callIdx, newVal)];
      JournalKeepsLog(n, callIdx, newVal);
      AgreeIffLocal();
    }

    twostate lemma JournalKeepsLog(n: StorageKey, new callIdx: nat, new v: Name)
      requires old(LogValid()) && old(Live(n)) && nodes == old(nodes) && index == old(index)
      requires log == old(log) + [Save(n, callIdx, v)]
      requires n.changes == Some(Appended(if old(n.changes) == None then map[] else old(n.changes).value, callIdx, v))
      requires forall m :: m in old(nodes) && m != n ==> m.changes == old(m.changes)
      ensures LogValid()
    {
      hide Saved, Collapse;
      forall m, i: nat | m in nodes ensures m.History(i) == Collapse(Saved(log, m, i)) {
        assert old(m.History(i)) == Collapse(Saved(old(log), m, i));
        SavedSnoc(old(log), Save(n, callIdx, v), m, i);
        CollapseAppends(Saved(old(log), m, i), v);
      }
    }

    /** saveBalance: the history of the account's root. */
    method SaveBalance(account: Address, newBalance: Name, callIdx: nat)
      requires Valid()
      modifies this`roots, this`nodes, this`made, this`log, nodes`changes, nodes`nodeType
      ensures Valid() && account in roots
      ensures old(nodes) <= nodes && fresh(nodes - old(nodes)) && old(made) <= made && fresh(made - old(made))
      ensures log == old(log) + [Save(roots[account], callIdx, newBalance)]
      ensures Agree() <==> old(Agree())
    {
      var r := EnsureRoot(account);
      Journal(r, callIdx, newBalance);
    }

    // ---- the shape of the tree

    /** The node reached from an account's root by slot and offset; null when the way is not there. */
    ghost function ByPlace(account: Address, path: seq<Place>): (r: StorageKey?)
      requires TreeValid()
      reads this`roots, this`nodes, nodes`children
      ensures r != null ==> r in nodes && r.account == account && r.path == path
      decreases |path|
    {
      if path == [] then
        if account in roots then assert Placed(roots[account]); roots[account] else null
      else
        var p := ByPlace(account, path[..|path| - 1]);
        var last := path[|path| - 1];
        if p == null || last !in p.children then null
        else
          assert ChildrenPlaced(p) && Placed(p.children[last]);
          assert path == path[..|path| - 1] + [last];
          p.children[last]
    }

    /** Every node is reachable from the root of its account, along its own path. */
    lemma Reachable(n: StorageKey)
      requires TreeValid() && n in nodes
      ensures ByPlace(n.account, n.path) == n
      decreases |n.path|
    {
      assert Placed(n);
      if !n.isRoot {
        assert n.path[..|n.path| - 1] == n.up.path;
        Reachable(n.up);
      }
    }

    /** No node has two parents, or two places under one. */
    lemma OneParent(m: StorageKey, p: Place, n: StorageKey, q: Place)
      requires TreeValid() && m in nodes && n in nodes && p in m.children && q in n.children
      requires m.children[p] == n.children[q]
      ensures m == n && p == q
    {
      assert ChildrenPlaced(m) && ChildrenPlaced(n);
    }
  }

  lemma SavedSnoc(log: seq<Save>, s: Save, key: StorageKey, i: nat)
    ensures Saved(log + [s], key, i)
         == if s.key == key && s.callIdx == i then Saved(log, key, i) + [s.value] else Saved(log, key, i)
  {
    assert (log + [s])[..|log|] == log;
  }

  lemma CollapseAppends(s: seq<Name>, v: Name)
    ensures var before := Collapse(s);
            Collapse(s + [v]) == if before != [] && before[|before| - 1] == v then before else before + [v]
  {
    hide Collapse;
    CollapseUnfolds(s + [v]);
    assert (s + [v])[..|s|] == s;
  }

  lemma CollapseUnfolds(s: seq<Name>)
    requires s != []
    ensures var before, v := Collapse(s[..|s| - 1]), s[|s| - 1];
            Collapse(s) == if before != [] && before[|before| - 1] == v then before else before + [v]
  {
  }

  lemma {:induction false} NeverSaved(log: seq<Save>, key: StorageKey, i: nat)
    requires forall s :: s in log ==> s.key != key
    ensures Saved(log, key, i) == []
  {
    if log != [] {
      NeverSaved(log[..|log| - 1], key, i);
    }
  }

  /** One variable at the top level of a fresh account: both routes lead to it. */
  method DeclareOne(account: Address, slot: Word, typeId: Hash, name: Name) returns (s: StateChanges)
    ensures fresh(s) && fresh(s.nodes) && fresh(s.made) && s.Valid() && s.Agree()
    ensures account in s.roots && s.roots[account] in s.nodes
    ensures s.roots[account].childrenIndex.Keys == {name} && (slot, 0) in s.roots[account].children
    ensures s.roots[account].childrenIndex[name] == s.FindKey(account, slot, 0, typeId)
  {
    hide StateChanges.TreeValid, StateChanges.NamesValid, StateChanges.IndexValid, StateChanges.LogValid,
      StateChanges.DeclValid, StateChanges.Agree, StateChanges.Conforms;
    s := new StateChanges();
    var ok := s.SaveKey(account, None, slot, None, typeId, 0, name);
    assert [name][..0] == [];
    s.NamedIsIndexed(account, [name]);
  }

  /** Two names saved for one slot and offset: the second name leads to a key outside the tree, while its own slot
      leads to the first. */
  method SharedSlotBreaksAgreement(account: Address, slot: Word, typeId: Hash, first: Name, second: Name)
    returns (s: StateChanges)
    requires first != second
    ensures fresh(s) && s.Valid() && !s.Agree()
    ensures var named, placed := s.ByName(account, [second]), s.FindKey(account, slot, 0, typeId);
      && named != null && placed != null && named != placed && s.ByName(account, [first]) == placed
      && named.slot == placed.slot && named.offset == placed.offset && named.typeId == placed.typeId
  {
    hide StateChanges.TreeValid, StateChanges.NamesValid, StateChanges.IndexValid, StateChanges.LogValid,
      StateChanges.DeclValid, StateChanges.Agree, StateChanges.Conforms;
    s := DeclareOne(account, slot, typeId, first);
    s.FoundAsNamed(account, slot, 0, typeId);
    var ok := s.SaveKey(account, None, slot, None, typeId, 0, second);
    assert [first][..0] == [] && [second][..0] == [];
    if s.Agree() {
      s.NamedIsIndexed(account, [second]);
    }
  }
}
