/** vm/tracer.go: the call tree of the tracer, numbered in call order. */
module CallTree {
  import opened Uint

  /** The tree as a value: the parent of each call by index, and the call being executed. */
  datatype Tree = Tree(parents: seq<Option<nat>>, current: Option<nat>)
  {
    /** a is j or one of its ancestors. */
    predicate OnPath(j: nat, a: nat)
      requires Backward() && j < |parents|
      decreases j
    {
      a == j || (parents[j].Some? && OnPath(parents[j].value, a))
    }

    /** Parents have smaller indices. */
    predicate Backward() {
      forall i :: 0 <= i < |parents| && parents[i].Some? ==> parents[i].value < i
    }

    /** a is on the path of the last call made so far, or there is none. */
    predicate OnLastPath(n: nat, a: Option<nat>)
      requires Backward() && n <= |parents|
    {
      a.Some? ==> n > 0 && OnPath(n - 1, a.value)
    }

    /** Preorder numbering: every call hangs on the path of the call made just before it. */
    predicate Valid() {
      && Backward()
      && (forall i :: 0 <= i < |parents| ==> OnLastPath(i, parents[i]))
      && OnLastPath(|parents|, current)
    }

    /** CallTree.add */
    function Add(): (t: Tree) {
      Tree(parents + [current], Some(|parents|))
    }

    /** CallTree.exit */
    function Exit(): (t: Tree)
      requires current.Some? ==> current.value < |parents|
    {
      if current == None then this else this.(current := parents[current.value])
    }
  }

  // ---- every run of adds and exits keeps the numbering

  lemma {:induction false} PathStable(t: Tree, u: Tree, j: nat, a: nat)
    requires t.Backward() && u.Backward() && t.parents <= u.parents && j < |t.parents|
    ensures t.OnPath(j, a) <==> u.OnPath(j, a)
    decreases j
  {
    if t.parents[j].Some? {
      PathStable(t, u, t.parents[j].value, a);
    }
  }

  /** The parent of a call on a path is on it too. */
  lemma {:induction false} PathClimbs(t: Tree, j: nat, a: nat)
    requires t.Backward() && j < |t.parents| && t.OnPath(j, a)
    ensures a <= j
    ensures t.parents[a].Some? ==> t.OnPath(j, t.parents[a].value)
    decreases j
  {
    if a != j {
      PathClimbs(t, t.parents[j].value, a);
    }
  }

  lemma {:induction false} PathTransitive(t: Tree, k: nat, j: nat, a: nat)
    requires t.Backward() && j < |t.parents| && k < |t.parents| && t.OnPath(k, j) && t.OnPath(j, a)
    ensures t.OnPath(k, a)
    decreases k
  {
    if k != j {
      PathTransitive(t, t.parents[k].value, j, a);
    }
  }

  lemma CurrentInRange(t: Tree)
    requires t.Valid()
    ensures t.current.Some? ==> t.current.value < |t.parents|
  {
    if t.current.Some? {
      PathClimbs(t, |t.parents| - 1, t.current.value);
    }
  }

  lemma AddKeepsValid(t: Tree)
    requires t.Valid()
    ensures t.Add().Valid()
  {
    var u := t.Add();
    CurrentInRange(t);
    assert u.Backward();
    forall i | 0 <= i < |u.parents| ensures u.OnLastPath(i, u.parents[i]) {
      if u.parents[i].Some? {
        PathStable(t, u, i - 1, u.parents[i].value);
      }
    }
  }

  lemma ExitKeepsValid(t: Tree)
    requires t.Valid()
    ensures t.current.Some? ==> t.current.value < |t.parents|
    ensures t.Exit().Valid()
  {
    CurrentInRange(t);
    if t.current.Some? {
      var u := t.Exit();
      PathClimbs(t, |t.parents| - 1, t.current.value);
      forall i | 0 <= i < |u.parents| ensures u.OnLastPath(i, u.parents[i]) {
        if u.parents[i].Some? {
          PathStable(t, u, i - 1, u.parents[i].value);
        }
      }
      if u.current.Some? {
        PathStable(t, u, |t.parents| - 1, u.current.value);
      }
    }
  }

  /** The descendants of a call are one contiguous block of indices: between a call and any of its descendants
      there are only descendants. */
  lemma {:induction false} DescendantsContiguous(t: Tree, a: nat, j: nat, k: nat)
    requires t.Valid() && a <= j <= k < |t.parents| && t.OnPath(k, a)
    ensures t.OnPath(j, a)
    decreases k
  {
    if j < k {
      var p := t.parents[k].value;
      assert t.OnLastPath(k, t.parents[k]);
      PathTransitive(t, k - 1, p, a);
      DescendantsContiguous(t, a, j, k - 1);
    }
  }

  // ---- what happens between entering and leaving a call

  /** Calls made since t was current hang below its current call or below one another. */
  predicate Extends(t: Tree, u: Tree) {
    && t.parents <= u.parents && u.current == t.current
    && forall k :: |t.parents| <= k < |u.parents| ==>
         u.parents[k] == t.current || (u.parents[k].Some? && u.parents[k].value >= |t.parents|)
  }

  lemma ExtendsTransitive(t: Tree, u: Tree, v: Tree)
    requires Extends(t, u) && Extends(u, v)
    ensures Extends(t, v)
  {
    forall k | |t.parents| <= k < |v.parents|
      ensures v.parents[k] == t.current || (v.parents[k].Some? && v.parents[k].value >= |t.parents|)
    {
      if k < |u.parents| {
        assert v.parents[k] == u.parents[k];
      }
    }
  }

  /** One more call was made from the current one, and whatever else was made hangs below it. */
  predicate Recorded(t: Tree, u: Tree) {
    && t.parents + [t.current] <= u.parents && u.current == t.current
    && forall k :: |t.parents| < k < |u.parents| ==> u.parents[k].Some? && u.parents[k].value >= |t.parents|
  }

  /** Entering a call, anything below it, and leaving it again. */
  lemma CallExtends(t: Tree, u: Tree)
    requires t.Valid() && u.Valid() && Extends(t.Add(), u)
    ensures u.current.Some? && u.current.value < |u.parents|
    ensures Extends(t, u.Exit()) && Recorded(t, u.Exit())
  {
    var n := |t.parents|;
    assert t.Add().parents[n] == t.current;
    assert u.parents[n] == t.current;
  }

  /** The indices handed out during a finished call are exactly that call and its descendants. */
  lemma {:induction false} FinishedCallIsBlock(t: Tree, u: Tree, k: nat)
    requires t.Valid() && u.Valid() && Recorded(t, u) && k < |u.parents|
    ensures u.OnPath(k, |t.parents|) <==> k >= |t.parents|
    decreases k
  {
    var n := |t.parents|;
    if k > n {
      FinishedCallIsBlock(t, u, u.parents[k].value);
    } else if k < n && u.OnPath(k, n) {
      PathClimbs(u, k, n);
    }
  }

  // ---- children lists

  /** The calls below n whose parent is i, in index order. */
  function ChildIndices(t: Tree, i: nat, n: nat): (c: seq<nat>)
    requires n <= |t.parents|
  {
    if n == 0 then []
    else ChildIndices(t, i, n - 1) + if t.parents[n - 1] == Some(i) then [n - 1] else []
  }

  lemma {:induction false} ChildIndicesStable(t: Tree, u: Tree, i: nat, n: nat)
    requires t.parents <= u.parents && n <= |t.parents|
    ensures ChildIndices(t, i, n) == ChildIndices(u, i, n)
  {
    if n > 0 {
      ChildIndicesStable(t, u, i, n - 1);
    }
  }

  /** Children lists are strictly increasing, and hold exactly the calls with that parent. */
  lemma {:induction false} ChildIndicesExact(t: Tree, i: nat, n: nat)
    requires n <= |t.parents|
    ensures var c := ChildIndices(t, i, n);
            && (forall j, k :: 0 <= j < k < |c| ==> c[j] < c[k])
            && (forall k: nat :: k in c <==> k < n && t.parents[k] == Some(i))
  {
    if n > 0 {
      ChildIndicesExact(t, i, n - 1);
      var c := ChildIndices(t, i, n - 1);
      assert forall j :: 0 <= j < |c| ==> c[j] in c;
    }
  }

  lemma ChildIndicesAfterAdd(t: Tree, i: nat)
    requires t.Valid()
    ensures ChildIndices(t.Add(), i, |t.parents| + 1)
         == ChildIndices(t, i, |t.parents|) + if t.current == Some(i) then [|t.parents|] else []
    ensures i >= |t.parents| ==> ChildIndices(t.Add(), i, |t.parents| + 1) == []
  {
    ChildIndicesStable(t, t.Add(), i, |t.parents|);
    CurrentInRange(t);
    if i >= |t.parents| {
      NoChildrenYet(t, i, |t.parents|);
    }
  }

  // ---- the numbering is the preorder of the tree

  /** One past the block of descendants of i, searched from k on. */
  function EndFrom(t: Tree, i: nat, k: nat): (e: nat)
    requires t.Backward() && i < k <= |t.parents|
    ensures k <= e <= |t.parents|
    ensures forall j :: k <= j < e ==> t.OnPath(j, i)
    ensures e < |t.parents| ==> !t.OnPath(e, i)
    decreases |t.parents| - k
  {
    if k < |t.parents| && t.OnPath(k, i) then EndFrom(t, i, k + 1) else k
  }

  function End(t: Tree, i: nat): (e: nat)
    requires t.Backward() && i < |t.parents|
    ensures i < e <= |t.parents|
  {
    EndFrom(t, i, i + 1)
  }

  /** Depth-first walk along the children lists. */
  function Walk(t: Tree, i: nat): (w: seq<nat>)
    requires t.Backward() && i < |t.parents|
    decreases |t.parents| - i, 1, 0
  {
    var cs := ChildIndices(t, i, |t.parents|);
    ChildIndicesExact(t, i, |t.parents|);
    assert forall k :: 0 <= k < |cs| ==> cs[k] in cs;
    [i] + WalkEach(t, i, cs)
  }

  function WalkEach(t: Tree, i: nat, cs: seq<nat>): (w: seq<nat>)
    requires t.Backward() && i < |t.parents|
    requires forall k :: 0 <= k < |cs| ==> i < cs[k] < |t.parents|
    decreases |t.parents| - i, 0, |cs|
  {
    if cs == [] then [] else Walk(t, cs[0]) + WalkEach(t, i, cs[1..])
  }

  function Range(lo: nat, hi: nat): (r: seq<nat>)
    requires lo <= hi
  {
    seq(hi - lo, i requires 0 <= i < hi - lo => lo + i)
  }

  /** The children of i from index p on. */
  function ChildrenFrom(t: Tree, i: nat, p: nat): (c: seq<nat>)
    requires t.Backward() && p <= |t.parents|
    ensures forall k :: 0 <= k < |c| ==> i < c[k] < |t.parents|
    decreases |t.parents| - p
  {
    if p == |t.parents| then []
    else (if t.parents[p] == Some(i) then [p] else []) + ChildrenFrom(t, i, p + 1)
  }

  lemma {:induction false} ChildrenSplit(t: Tree, i: nat, p: nat)
    requires t.Backward() && p <= |t.parents|
    ensures ChildIndices(t, i, |t.parents|) == ChildIndices(t, i, p) + ChildrenFrom(t, i, p)
    decreases |t.parents| - p
  {
    if p < |t.parents| {
      ChildrenSplit(t, i, p + 1);
      assert ChildIndices(t, i, p + 1) + ChildrenFrom(t, i, p + 1) == ChildIndices(t, i, p) + ChildrenFrom(t, i, p);
    }
  }

  lemma {:induction false} NoChildrenIn(t: Tree, i: nat, p: nat, q: nat)
    requires t.Backward() && p <= q <= |t.parents|
    requires forall k :: p <= k < q ==> t.parents[k] != Some(i)
    ensures ChildrenFrom(t, i, p) == ChildrenFrom(t, i, q)
    decreases q - p
  {
    if p < q {
      NoChildrenIn(t, i, p + 1, q);
    }
  }

  /** Of two calls on one path the one with the larger index hangs below the other. */
  lemma {:induction false} PathLinear(t: Tree, j: nat, a: nat, b: nat)
    requires t.Backward() && j < |t.parents| && t.OnPath(j, a) && t.OnPath(j, b) && a <= b
    ensures b < |t.parents| && t.OnPath(b, a)
    decreases j
  {
    PathClimbs(t, j, b);
    if b != j {
      PathLinear(t, t.parents[j].value, a, b);
    }
  }

  lemma BlockNested(t: Tree, i: nat, p: nat)
    requires t.Valid() && i < p < |t.parents| && t.parents[p] == Some(i)
    ensures End(t, p) <= End(t, i)
  {
    var q, e := End(t, p), End(t, i);
    assert t.OnPath(p, i);
    if e < q {
      if e < p {
        DescendantsContiguous(t, i, e, p);
      } else {
        PathTransitive(t, e, p, i);
      }
      assert false;
    }
  }

  /** After the block of one child comes the next child of the same call, or the end of the call's own block. */
  lemma NextChild(t: Tree, i: nat, p: nat)
    requires t.Valid() && i < p < |t.parents| && t.parents[p] == Some(i)
    ensures End(t, p) <= End(t, i)
    ensures End(t, p) < End(t, i) ==> t.parents[End(t, p)] == Some(i)
    ensures forall k :: p < k < End(t, p) ==> t.parents[k] != Some(i)
  {
    var q, e := End(t, p), End(t, i);
    BlockNested(t, i, p);
    forall k | p < k < q ensures t.parents[k] != Some(i) {
      assert t.OnPath(k, p);
      PathClimbs(t, t.parents[k].value, p);
    }
    if q < e {
      assert t.OnPath(q, i);
      var par := t.parents[q].value;
      assert t.OnLastPath(q, t.parents[q]);
      assert t.OnPath(q - 1, p);
      if par >= p {
        PathLinear(t, q - 1, p, par);
        assert false;
      }
      PathLinear(t, q - 1, par, p);
      PathClimbs(t, i, par);
      PathClimbs(t, par, i);
    }
  }

  /** The children of i from its child p on are p and the children after the block of p. */
  lemma ChildrenNext(t: Tree, i: nat, p: nat)
    requires t.Valid() && i < p < |t.parents| && t.parents[p] == Some(i)
    ensures ChildrenFrom(t, i, p) == [p] + ChildrenFrom(t, i, End(t, p))
  {
    hide End, EndFrom, Tree.OnPath, Tree.OnLastPath;
    NextChild(t, i, p);
    NoChildrenIn(t, i, p + 1, End(t, p));
  }

  lemma NoChildrenPastEnd(t: Tree, i: nat)
    requires t.Valid() && i < |t.parents|
    ensures ChildrenFrom(t, i, End(t, i)) == []
  {
    var e := End(t, i);
    forall k | e <= k < |t.parents| ensures t.parents[k] != Some(i) {
      if t.parents[k] == Some(i) {
        assert t.OnPath(k, i);
        DescendantsContiguous(t, i, e, k);
      }
    }
    NoChildrenIn(t, i, e, |t.parents|);
  }

  lemma FirstChild(t: Tree, i: nat)
    requires t.Valid() && i < |t.parents|
    ensures i + 1 < End(t, i) ==> t.parents[i + 1] == Some(i)
    ensures ChildIndices(t, i, |t.parents|) == ChildrenFrom(t, i, i + 1)
  {
    if i + 1 < End(t, i) {
      assert t.OnPath(i + 1, i) && t.OnLastPath(i + 1, t.parents[i + 1]);
      PathClimbs(t, t.parents[i + 1].value, i);
    }
    ChildrenSplit(t, i, i + 1);
    NoChildrenYet(t, i, i + 1);
  }

  /** Walking a call's subtree depth first visits consecutive indices: the numbering is the preorder. */
  lemma {:induction false} WalkIsRange(t: Tree, i: nat)
    requires t.Valid() && i < |t.parents|
    ensures Walk(t, i) == Range(i, End(t, i))
    decreases |t.parents| - i, 2, 0
  {
    hide ChildrenFrom, ChildIndices, WalkEach, End, Tree.OnPath, Tree.OnLastPath;
    FirstChild(t, i);
    WalkFrom(t, i, i + 1);
    assert [i] + Range(i + 1, End(t, i)) == Range(i, End(t, i));
  }

  lemma {:induction false} WalkFrom(t: Tree, i: nat, p: nat)
    requires t.Valid() && i < |t.parents| && i < p <= End(t, i)
    requires p < End(t, i) ==> t.parents[p] == Some(i)
    ensures WalkEach(t, i, ChildrenFrom(t, i, p)) == Range(p, End(t, i))
    decreases |t.parents| - i, 1, |t.parents| - p
  {
    hide ChildrenFrom, ChildIndices, Walk, End, Tree.OnPath, Tree.OnLastPath;
    var e := End(t, i);
    if p == e {
      NoChildrenPastEnd(t, i);
    } else {
      NextChild(t, i, p);
      ChildrenNext(t, i, p);
      var q := End(t, p);
      WalkIsRange(t, p);
      WalkFrom(t, i, q);
      assert ChildrenFrom(t, i, p)[1..] == ChildrenFrom(t, i, q);
      assert Range(p, q) + Range(q, e) == Range(p, e);
    }
  }

  // ---- the tracer's objects

  class Call {
    const index: nat
    const parent: Call?
    var children: seq<Call>
    var remainingGas: U64
    var ret: seq<Byte>
    var failed: bool

    constructor (index: nat, parent: Call?)
      ensures this.index == index && this.parent == parent && children == []
    {
      this.index, this.parent := index, parent;
      children, remainingGas, ret, failed := [], 0, [], false;
    }
  }

  /** vm.CallTree: linked objects, and the lookup table. */
  class CallTree {
    var root: Call?
    var current: Call?
    var count: nat
    var lookup: map<nat, Call>

    ghost function Calls(): (s: set<Call>)
      reads this
    {
      set i | i in lookup :: lookup[i]
    }

    /** The call is the one the lookup table has under its index. */
    ghost predicate Listed(c: Call)
      reads this
    {
      c.index in lookup && lookup[c.index] == c
    }

    ghost predicate Linked()
      reads this
    {
      && (forall i: nat :: i in lookup <==> i < count)
      && (forall i: nat :: i < count ==> lookup[i].index == i)
      && (forall i: nat :: i < count && lookup[i].parent != null ==>
            Listed(lookup[i].parent) && lookup[i].parent.index < i)
      && (current != null ==> Listed(current))
      && (if count == 0 then root == null else root == lookup[0])
    }

    ghost function View(): (t: Tree)
      requires Linked()
      reads this
    {
      Tree(seq(count, i requires 0 <= i < count reads this requires Linked() => IndexOf(lookup[i].parent)),
           IndexOf(current))
    }

    static ghost function IndexOf(c: Call?): (i: Option<nat>) {
      if c == null then None else Some(c.index)
    }

    /** lookup[i].Index == i, parents have smaller indices, children lists are complete and increasing, and the
        numbering is a preorder. */
    ghost predicate Valid()
      reads this, Calls()
    {
      && Linked() && View().Valid()
      && forall i: nat :: i < count ==> ChildrenMatch(lookup[i].children, ChildIndices(View(), i, count))
    }

    ghost predicate ChildrenMatch(children: seq<Call>, indices: seq<nat>)
      reads this
    {
      && |children| == |indices|
      && forall j :: 0 <= j < |children| ==> indices[j] in lookup && children[j] == lookup[indices[j]]
    }

    constructor ()
      ensures Valid() && View() == Tree([], None)
    {
      root, current, count, lookup := null, null, 0, map[];
    }

    /** CallTree.add */
    method Add()
      requires Valid()
      modifies this, if current == null then {} else {current}
      ensures Valid()
      ensures View() == old(View()).Add()
      ensures current != null && fresh(current) && count == old(count) + 1
      ensures lookup == old(lookup)[old(count) := current]
    {
      hide Tree.Valid, ChildIndices, View;
      AddKeepsValid(View());
      var newCall := new Call(count, current);
      Link(newCall);
      ChildrenAfterAdd(newCall);
    }

    twostate lemma ChildrenAfterAdd(new c: Call)
      requires old(Valid()) && Linked() && View() == old(View()).Add()
      requires old(count) !in old(lookup) && lookup == old(lookup)[old(count) := c] && c.children == []
      requires count == old(count) + 1
      requires forall i: nat :: i < old(count) ==>
        lookup[i].children == old(lookup[i].children) + if old(View()).current == Some(i) then [c] else []
      ensures forall i: nat :: i < count ==> ChildrenMatch(lookup[i].children, ChildIndices(View(), i, count))
    {
      hide Tree.Valid, ChildIndices;
      forall i: nat | i < count
        ensures ChildrenMatch(lookup[i].children, ChildIndices(View(), i, count))
      {
        ChildIndicesAfterAdd(old(View()), i);
        if i < old(count) {
          assert old(ChildrenMatch(lookup[i].children, ChildIndices(View(), i, count)));
        }
      }
    }

    /** The stores of CallTree.add. */
    method Link(newCall: Call)
      requires Linked()
      requires newCall.index == count && newCall.parent == current && newCall != current && newCall !in Calls()
      requires newCall.children == []
      modifies this, if current == null then {} else {current}
      ensures Linked() && View() == old(View()).Add()
      ensures old(count) !in old(lookup)
      ensures current == newCall && count == old(count) + 1 && lookup == old(lookup)[old(count) := newCall]
      ensures newCall.children == []
      ensures forall i: nat :: i < old(count) ==>
        lookup[i].children == old(lookup[i].children) + if old(View()).current == Some(i) then [newCall] else []
    {
      hide View, Listed;
      if root == null {
        root := newCall;
      }
      if current != null {
        current.children := current.children + [newCall];
      }
      lookup := lookup[count := newCall];
      current := newCall;
      count := count + 1;
      StaysLinked(newCall);
      LinkedView(newCall);
    }

    twostate lemma StaysLinked(new c: Call)
      requires old(Linked())
      requires c.index == old(count) && c.parent == old(current) && current == c && count == old(count) + 1
      requires lookup == old(lookup)[old(count) := c] && root == if old(root) == null then c else old(root)
      ensures Linked()
    {
      assert forall i: nat :: i < old(count) ==> lookup[i] == old(lookup[i]);
    }

    twostate lemma LinkedView(new c: Call)
      requires old(Linked()) && Linked()
      requires c.index == old(count) && c.parent == old(current) && current == c && count == old(count) + 1
      requires lookup == old(lookup)[old(count) := c]
      ensures View() == old(View()).Add()
      ensures forall i: nat :: i < old(count) ==> (old(View()).current == Some(i) <==> old(current) == lookup[i])
    {
      assert View().parents == old(View()).parents + [old(View()).current];
    }

    /** CallTree.exit: without a current call nothing happens. */
    method Exit(leftoverGas: U64, ret: seq<Byte>, failed: bool)
      requires Valid()
      modifies this`current, if current == null then {} else {current}
      ensures Valid()
      ensures old(View()).current.Some? ==> old(View()).current.value < |old(View()).parents|
      ensures View() == old(View()).Exit()
      ensures old(current) != null ==>
        old(current).remainingGas == leftoverGas && old(current).ret == ret && old(current).failed == failed
    {
      hide Tree.Valid, ChildIndices;
      ghost var before := View();
      ExitKeepsValid(before);
      if current == null {
        return;
      }
      current.remainingGas := leftoverGas;
      current.ret := ret;
      current.failed := failed;
      current := current.parent;
      assert View() == before.Exit();
      forall i: nat | i < count
        ensures ChildrenMatch(lookup[i].children, ChildIndices(View(), i, count))
      {
        ChildIndicesStable(before, View(), i, count);
      }
    }
  }

  lemma {:induction false} NoChildrenYet(t: Tree, i: nat, n: nat)
    requires t.Backward() && n <= |t.parents| && n <= i + 1
    ensures ChildIndices(t, i, n) == []
  {
    if n > 0 {
      NoChildrenYet(t, i, n - 1);
    }
  }
}
