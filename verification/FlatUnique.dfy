/** tracers/native/call_flat.go: when the trace addresses of a flat trace are all different. */
module FlatUnique {
  import opened FlatTrace

  predicate Distinct(frames: seq<FlatFrame>) {
    forall i, j :: 0 <= i < j < |frames| ==> frames[i].address != frames[j].address
  }

  /** The branches of one frame have different numbers. */
  predicate Apart(kids: seq<Kid>) {
    forall i, j :: 0 <= i < j < |kids| ==> kids[i].number != kids[j].number
  }

  predicate ApartEverywhere(t: Tree)
    decreases t, 0
  {
    KidsApart(t.kids)
  }

  predicate KidsApart(kids: seq<Kid>)
    decreases kids, 0
  {
    Apart(kids) && forall k :: k in kids ==> assert k.tree < k; ApartEverywhere(k.tree)
  }

  // ---- addresses and numbers

  /** The addresses are all different exactly when sibling numbers are, at every frame. */
  lemma {:induction false} DistinctIff(t: Tree, address: seq<nat>)
    ensures Distinct(Emit(t, address)) <==> ApartEverywhere(t)
    decreases t, 0
  {
    var all, kids := Emit(t, address), EmitKids(t.kids, address);
    KidsDistinctIff(t.kids, address);
    EmitBelow(t, address);
    assert all == [all[0]] + kids;
    if Distinct(all) {
      forall i, j | 0 <= i < j < |kids| ensures kids[i].address != kids[j].address {
        assert kids[i] == all[i + 1] && kids[j] == all[j + 1];
      }
    }
    if Distinct(kids) {
      forall i, j | 0 <= i < j < |all| ensures all[i].address != all[j].address {
        if i > 0 {
          assert kids[i - 1] == all[i] && kids[j - 1] == all[j];
        }
      }
    }
  }

  lemma {:induction false} KidsDistinctIff(kids: seq<Kid>, address: seq<nat>)
    ensures Distinct(EmitKids(kids, address)) <==> KidsApart(kids)
    decreases kids, 0
  {
    if kids != [] {
      var init, last := kids[..|kids| - 1], kids[|kids| - 1];
      assert last.tree < last && kids == init + [last];
      KidsDistinctIff(init, address);
      DistinctIff(last.tree, address + [last.number]);
      InitApart(init, last);
      PartsDistinctIff(init, last, address);
    }
  }

  lemma InitApart(init: seq<Kid>, last: Kid)
    ensures KidsApart(init + [last])
       <==> && KidsApart(init) && ApartEverywhere(last.tree)
            && forall k :: 0 <= k < |init| ==> init[k].number != last.number
  {
    hide ApartEverywhere;
    var kids := init + [last];
    assert forall k :: k in kids <==> k in init || k == last;
    if Apart(kids) {
      forall i, j | 0 <= i < j < |init| ensures init[i].number != init[j].number {
        assert kids[i] == init[i] && kids[j] == init[j];
      }
      forall k | 0 <= k < |init| ensures init[k].number != last.number {
        assert kids[k] == init[k] && kids[|init|] == last;
      }
    }
  }

  /** Two parts of a list have no address in common exactly when the last number is new. */
  lemma PartsDistinctIff(init: seq<Kid>, last: Kid, address: seq<nat>)
    ensures Distinct(EmitKids(init + [last], address))
       <==> && Distinct(EmitKids(init, address)) && Distinct(Emit(last.tree, address + [last.number]))
            && forall k :: 0 <= k < |init| ==> init[k].number != last.number
  {
    hide Emit, EmitKids, Distinct;
    var a, b := EmitKids(init, address), Emit(last.tree, address + [last.number]);
    EmitKidsSnoc(init, last, address);
    ConcatDistinctIff(a, b);
    if forall k :: 0 <= k < |init| ==> init[k].number != last.number {
      NewNumberNewAddresses(init, last, address);
    }
    if Disjoint(a, b) {
      NewAddressesNewNumber(init, last, address);
    }
  }

  predicate Disjoint(a: seq<FlatFrame>, b: seq<FlatFrame>) {
    forall i, j :: 0 <= i < |a| && 0 <= j < |b| ==> a[i].address != b[j].address
  }

  lemma NewNumberNewAddresses(init: seq<Kid>, last: Kid, address: seq<nat>)
    requires forall k :: 0 <= k < |init| ==> init[k].number != last.number
    ensures Disjoint(EmitKids(init, address), Emit(last.tree, address + [last.number]))
  {
    hide Emit, EmitKids, Below;
    var a, b := EmitKids(init, address), Emit(last.tree, address + [last.number]);
    EmitKidsBelow(init, address);
    EmitBelow(last.tree, address + [last.number]);
    forall i, j | 0 <= i < |a| && 0 <= j < |b| ensures a[i].address != b[j].address {
      assert UnderSome(init, address, a[i].address);
      var k :| 0 <= k < |init| && Below(a[i].address, address + [init[k].number]);
      if a[i].address == b[j].address {
        SameNumber(a[i].address, address, init[k].number, last.number);
      }
    }
  }

  lemma SameNumber(a: seq<nat>, p: seq<nat>, x: nat, y: nat)
    requires Below(a, p + [x]) && Below(a, p + [y])
    ensures x == y
  {
    BelowSameNumber(a, a, p, x, y);
  }

  lemma NewAddressesNewNumber(init: seq<Kid>, last: Kid, address: seq<nat>)
    requires Disjoint(EmitKids(init, address), Emit(last.tree, address + [last.number]))
    ensures forall k :: 0 <= k < |init| ==> init[k].number != last.number
  {
    hide EmitKids, Below;
    var a, b := EmitKids(init, address), Emit(last.tree, address + [last.number]);
    EmitKidsBelow(init, address);
    forall k | 0 <= k < |init| ensures init[k].number != last.number {
      assert Emitted(a, address + [init[k].number]);
      var i :| 0 <= i < |a| && a[i].address == address + [init[k].number];
      assert a[i].address != b[0].address;
    }
  }

  lemma ConcatDistinctIff(a: seq<FlatFrame>, b: seq<FlatFrame>)
    ensures Distinct(a + b)
       <==> Distinct(a) && Distinct(b) && Disjoint(a, b)
  {
    var all := a + b;
    if Distinct(all) {
      forall i, j | 0 <= i < j < |a| ensures a[i].address != a[j].address {
        assert a[i] == all[i] && a[j] == all[j];
      }
      forall i, j | 0 <= i < j < |b| ensures b[i].address != b[j].address {
        assert b[i] == all[|a| + i] && b[j] == all[|a| + j];
      }
      forall i, j | 0 <= i < |a| && 0 <= j < |b| ensures a[i].address != b[j].address {
        assert a[i] == all[i] && b[j] == all[|a| + j];
      }
    }
  }

  // ---- n different numbers below n

  function Upto(n: nat): (s: set<nat>)
    ensures |s| == n && forall x: nat :: x in s <==> x < n
  {
    if n == 0 then {} else Upto(n - 1) + {n - 1}
  }

  lemma SameSize(a: set<nat>, b: set<nat>)
    requires a <= b && |a| == |b|
    ensures a == b
  {
    assert b == a + (b - a);
  }

  function Numbers(kids: seq<Kid>): (s: set<nat>) {
    set k | k in kids :: k.number
  }

  /** There are as many numbers as branches exactly when no number repeats. */
  lemma {:induction false} NumbersSize(kids: seq<Kid>)
    ensures |Numbers(kids)| <= |kids|
    ensures |Numbers(kids)| == |kids| <==> Apart(kids)
  {
    if kids != [] {
      var init, last := kids[..|kids| - 1], kids[|kids| - 1];
      assert kids == init + [last];
      NumbersSize(init);
      assert Numbers(kids) == Numbers(init) + {last.number};
      ApartSnoc(init, last);
    }
  }

  lemma ApartSnoc(init: seq<Kid>, last: Kid)
    ensures Apart(init + [last]) <==> Apart(init) && last.number !in Numbers(init)
  {
    var kids := init + [last];
    if Apart(kids) {
      forall i, j | 0 <= i < j < |init| ensures init[i].number != init[j].number {
        assert kids[i] == init[i] && kids[j] == init[j];
      }
      forall k | k in init ensures k.number != last.number {
        var i :| 0 <= i < |init| && init[i] == k;
        assert kids[i] == k && kids[|init|] == last;
      }
    }
    if last.number !in Numbers(init) {
      forall i | 0 <= i < |init| ensures init[i].number != last.number {
        assert init[i] in init;
      }
    }
  }

  lemma AllNumbers(kids: seq<Kid>)
    requires forall k :: k in kids ==> k.number < |kids|
    ensures Numbers(kids) == Upto(|kids|) <==> Apart(kids)
  {
    NumbersSize(kids);
    if Apart(kids) {
      SameSize(Numbers(kids), Upto(|kids|));
    }
  }

  // ---- one frame

  lemma {:induction false} PositionsGrow(jps: seq<AspectFrame>, n: nat, pre: bool)
    requires n <= |jps|
    ensures var p := Positions(jps, n, pre); forall i, j :: 0 <= i < j < |p| ==> p[i] < p[j]
  {
    if n > 0 {
      PositionsGrow(jps, n - 1, pre);
      PositionsExact(jps, n - 1, pre);
      var p := Positions(jps, n - 1, pre);
      assert forall i :: 0 <= i < |p| ==> p[i] in p;
    }
  }

  /** Every branch is a pre-call join point, a call or a post-call join point, with its number. */
  lemma BranchesOf(f: CallFrame, k: Kid)
    requires k in TreeOf(f).kids
    ensures var pre := |PreKids(f.joinPoints, |f.joinPoints|)|;
      || (k.number < |f.joinPoints| && f.joinPoints[k.number].isPreCall)
      || (pre <= k.number < pre + |f.calls|)
      || (0 <= k.number - |f.calls| < |f.joinPoints| && !f.joinPoints[k.number - |f.calls|].isPreCall)
    ensures k.number < |TreeOf(f).kids| == |f.calls| + |f.joinPoints|
  {
    hide AspectTree;
    var jps, n := f.joinPoints, |f.calls|;
    var pre := PreKids(jps, |jps|);
    var mid, post := CallKids(f.calls, n, |pre|), PostKids(jps, |jps|, n);
    PositionsExact(jps, |jps|, true);
    PositionsExact(jps, |jps|, false);
    KidsAtPositions(jps, |jps|, n);
    CallKidsExact(f.calls, n, |pre|);
    var p, q := Positions(jps, |jps|, true), Positions(jps, |jps|, false);
    assert forall i :: 0 <= i < |p| ==> p[i] in p;
    assert forall i :: 0 <= i < |q| ==> q[i] in q;
    assert k in pre || k in mid || k in post;
  }

  /** With calls in between, different numbers force the pre-call join points to the front. */
  lemma {:induction false} FrontIsPre(f: CallFrame, i: nat)
    requires Apart(TreeOf(f).kids) && f.calls != [] && i < |PreKids(f.joinPoints, |f.joinPoints|)|
    ensures i < |f.joinPoints| && f.joinPoints[i].isPreCall
    decreases i
  {
    hide TreeOf;
    var jps := f.joinPoints;
    PreKidsFit(jps);
    var k := BranchNumbered(f, i);
    BranchesOf(f, k);
    if i >= |f.calls| {
      FrontIsPre(f, i - |f.calls|);
    }
  }

  lemma PreKidsFit(jps: seq<AspectFrame>)
    ensures |PreKids(jps, |jps|)| <= |jps|
  {
    KidsAtPositions(jps, |jps|, 0);
    PositionsExact(jps, |jps|, true);
  }

  lemma BranchNumbered(f: CallFrame, i: nat) returns (k: Kid)
    requires Apart(TreeOf(f).kids) && i < |f.joinPoints|
    ensures k in TreeOf(f).kids && k.number == i
  {
    hide TreeOf, Apart;
    var kids := TreeOf(f).kids;
    forall k | k in kids ensures k.number < |kids| {
      BranchesOf(f, k);
    }
    BranchCount(f);
    AllNumbers(kids);
    assert i in Numbers(kids);
    k :| k in kids && k.number == i;
  }

  lemma BranchCount(f: CallFrame)
    ensures |TreeOf(f).kids| == |f.calls| + |f.joinPoints|
  {
    NumbersRightIff(f);
  }

  lemma FrontIsPreFirst(f: CallFrame)
    requires Apart(TreeOf(f).kids) && f.calls != []
    ensures ListPreFirst(f.joinPoints)
  {
    var jps := f.joinPoints;
    var p := Positions(jps, |jps|, true);
    KidsAtPositions(jps, |jps|, 0);
    PositionsExact(jps, |jps|, true);
    PositionsGrow(jps, |jps|, true);
    forall i | 0 <= i < |p| ensures i in p {
      FrontIsPre(f, i);
    }
    SortedFull(p);
    forall i, j | 0 <= i < j < |jps| && jps[j].isPreCall ensures jps[i].isPreCall {
      assert j in p;
      FrontIsPre(f, i);
    }
  }

  /** n growing numbers that hold 0 to n-1 hold nothing else. */
  lemma SortedFull(p: seq<nat>)
    requires forall i, j :: 0 <= i < j < |p| ==> p[i] < p[j]
    requires forall i :: 0 <= i < |p| ==> i in p
    ensures forall x :: x in p ==> x < |p|
  {
    ElementsSize(p);
    SameSize(Upto(|p|), Elements(p));
    assert forall x :: x in p ==> x in Elements(p);
  }

  function Elements(p: seq<nat>): (s: set<nat>) {
    set x | x in p
  }

  lemma {:induction false} ElementsSize(p: seq<nat>)
    requires forall i, j :: 0 <= i < j < |p| ==> p[i] < p[j]
    ensures |Elements(p)| == |p|
  {
    if p != [] {
      var init, last := p[..|p| - 1], p[|p| - 1];
      ElementsSize(init);
      assert p == init + [last];
      assert Elements(p) == Elements(init) + {last};
      assert last !in init;
    }
  }

  /** Without calls every join point is numbered by its position. */
  lemma NoCallsApart(f: CallFrame)
    requires f.calls == []
    ensures Apart(TreeOf(f).kids)
  {
    hide AspectTree;
    var jps := f.joinPoints;
    var pre, post := PreKids(jps, |jps|), PostKids(jps, |jps|, 0);
    assert TreeOf(f).kids == pre + post;
    JoinPointsApart(jps);
    hide PreKids, PostKids;
    assert Apart(pre + post);
  }

  lemma JoinPointsApart(jps: seq<AspectFrame>)
    ensures Apart(PreKids(jps, |jps|) + PostKids(jps, |jps|, 0))
  {
    hide AspectTree, PreKids, PostKids, Positions;
    var pre, post := PreKids(jps, |jps|), PostKids(jps, |jps|, 0);
    var p, q := Positions(jps, |jps|, true), Positions(jps, |jps|, false);
    KidsAtPositions(jps, |jps|, 0);
    PositionsGrow(jps, |jps|, true);
    PositionsGrow(jps, |jps|, false);
    forall i, j | 0 <= i < |p| && 0 <= j < |q| ensures p[i] != q[j] {
      PositionsExact(jps, |jps|, true);
      PositionsExact(jps, |jps|, false);
      assert p[i] in p && q[j] in q;
    }
    var all: seq<Kid> := pre + post;
    forall i, j | 0 <= i < j < |all| ensures all[i].number != all[j].number {
    }
  }

  /** The branches of one frame have different numbers exactly when it makes no calls or its pre-call join points come
      first. */
  lemma ApartIff(f: CallFrame)
    ensures Apart(TreeOf(f).kids) <==> f.calls == [] || ListPreFirst(f.joinPoints)
  {
    NumbersRightIff(f);
    if f.calls == [] {
      NoCallsApart(f);
    } else if Apart(TreeOf(f).kids) {
      FrontIsPreFirst(f);
    }
  }

  // ---- the whole trace

  predicate Unambiguous(f: CallFrame) {
    && (f.calls == [] || ListPreFirst(f.joinPoints))
    && (forall c :: c in f.calls ==> Unambiguous(c))
    && (forall j :: j in f.joinPoints ==> AspectUnambiguous(j))
  }

  predicate AspectUnambiguous(j: AspectFrame) {
    forall c :: c in j.calls ==> Unambiguous(c)
  }

  lemma CallHasBranch(f: CallFrame, i: nat) returns (k: Kid)
    requires i < |f.calls|
    ensures k in TreeOf(f).kids && k.tree == TreeOf(f.calls[i])
  {
    var pre := PreKids(f.joinPoints, |f.joinPoints|);
    var mid := CallKids(f.calls, |f.calls|, |pre|);
    CallKidsExact(f.calls, |f.calls|, |pre|);
    k := mid[i];
    assert k in mid;
  }

  lemma JoinPointHasBranch(f: CallFrame, i: nat) returns (k: Kid)
    requires i < |f.joinPoints|
    ensures k in TreeOf(f).kids && k.tree == AspectTree(f.joinPoints[i])
  {
    hide AspectTree;
    var jps := f.joinPoints;
    var pre, post := PreKids(jps, |jps|), PostKids(jps, |jps|, |f.calls|);
    KidsAtPositions(jps, |jps|, |f.calls|);
    PositionsExact(jps, |jps|, jps[i].isPreCall);
    var p := Positions(jps, |jps|, jps[i].isPreCall);
    assert i in p;
    var n :| 0 <= n < |p| && p[n] == i;
    k := if jps[i].isPreCall then pre[n] else post[n];
    assert k in pre || k in post;
  }

  lemma BranchIsOne(f: CallFrame, k: Kid)
    requires k in TreeOf(f).kids
    ensures || (exists i :: 0 <= i < |f.calls| && k.tree == TreeOf(f.calls[i]))
            || (exists i :: 0 <= i < |f.joinPoints| && k.tree == AspectTree(f.joinPoints[i]))
  {
    hide AspectTree;
    var jps, n := f.joinPoints, |f.calls|;
    var pre := PreKids(jps, |jps|);
    var mid, post := CallKids(f.calls, n, |pre|), PostKids(jps, |jps|, n);
    KidsAtPositions(jps, |jps|, n);
    CallKidsExact(f.calls, n, |pre|);
    assert k in pre || k in mid || k in post;
  }

  /** The trees of the branches are those of the calls and of the join points. */
  lemma BranchTrees(f: CallFrame, p: Tree -> bool)
    ensures (forall k :: k in TreeOf(f).kids ==> p(k.tree))
       <==> && (forall i :: 0 <= i < |f.calls| ==> p(TreeOf(f.calls[i])))
            && (forall i :: 0 <= i < |f.joinPoints| ==> p(AspectTree(f.joinPoints[i])))
  {
    hide AspectTree, TreeOf;
    if forall k :: k in TreeOf(f).kids ==> p(k.tree) {
      forall i | 0 <= i < |f.calls| ensures p(TreeOf(f.calls[i])) {
        var k := CallHasBranch(f, i);
      }
      forall i | 0 <= i < |f.joinPoints| ensures p(AspectTree(f.joinPoints[i])) {
        var k := JoinPointHasBranch(f, i);
      }
    }
    forall k | k in TreeOf(f).kids
      ensures || (exists i :: 0 <= i < |f.calls| && k.tree == TreeOf(f.calls[i]))
              || (exists i :: 0 <= i < |f.joinPoints| && k.tree == AspectTree(f.joinPoints[i]))
    {
      BranchIsOne(f, k);
    }
  }

  lemma {:induction false} UnambiguousIff(f: CallFrame)
    ensures ApartEverywhere(TreeOf(f)) <==> Unambiguous(f)
    decreases f, 0
  {
    hide AspectTree;
    ApartIff(f);
    BranchTrees(f, t => ApartEverywhere(t));
    forall i | 0 <= i < |f.calls| ensures ApartEverywhere(TreeOf(f.calls[i])) <==> Unambiguous(f.calls[i]) {
      UnambiguousIff(f.calls[i]);
    }
    forall i | 0 <= i < |f.joinPoints|
      ensures ApartEverywhere(AspectTree(f.joinPoints[i])) <==> AspectUnambiguous(f.joinPoints[i])
    {
      AspectUnambiguousIff(f.joinPoints[i]);
    }
    EachOf(f.calls, f.joinPoints);
  }

  lemma EachOf(calls: seq<CallFrame>, jps: seq<AspectFrame>)
    ensures (forall c :: c in calls ==> Unambiguous(c)) <==> forall i :: 0 <= i < |calls| ==> Unambiguous(calls[i])
    ensures (forall j :: j in jps ==> AspectUnambiguous(j))
       <==> forall i :: 0 <= i < |jps| ==> AspectUnambiguous(jps[i])
  {
    hide Unambiguous, AspectUnambiguous;
    assert forall i :: 0 <= i < |calls| ==> calls[i] in calls;
    assert forall i :: 0 <= i < |jps| ==> jps[i] in jps;
  }

  lemma {:induction false} AspectUnambiguousIff(j: AspectFrame)
    ensures ApartEverywhere(AspectTree(j)) <==> AspectUnambiguous(j)
    decreases j, 0
  {
    hide TreeOf;
    var kids := AspectTree(j).kids;
    CallKidsExact(j.calls, |j.calls|, 0);
    forall i | 0 <= i < |j.calls| ensures ApartEverywhere(TreeOf(j.calls[i])) <==> Unambiguous(j.calls[i]) {
      UnambiguousIff(j.calls[i]);
    }
    EachOf(j.calls, []);
    assert forall i :: 0 <= i < |kids| ==> kids[i] in kids && kids[i].tree == TreeOf(j.calls[i]);
  }

  /** The addresses of a flat trace are all different exactly when every frame that makes calls has its pre-call join
      points first. */
  lemma UniqueIff(f: CallFrame, address: seq<nat>)
    ensures Distinct(Emit(TreeOf(f), address)) <==> Unambiguous(f)
  {
    DistinctIff(TreeOf(f), address);
    UnambiguousIff(f);
  }

  // ---- children of a flat frame

  /** A frame with Subtraces k has exactly the children 0 to k-1 in the list. */
  ghost predicate Matched(frames: seq<FlatFrame>) {
    forall g, j: nat :: g in frames ==> (HasAddress(frames, g.address + [j]) <==> j < g.head.subtraces)
  }

  /** The branches of every frame use the numbers 0 to n-1, in whatever order. */
  ghost predicate Full(t: Tree)
    decreases t
  {
    Numbers(t.kids) == Upto(|t.kids|) && forall k :: k in t.kids ==> assert k.tree < k; Full(k.tree)
  }

  /** The children of the top frame are the branches. */
  lemma TopChildren(t: Tree, address: seq<nat>, j: nat)
    ensures HasAddress(Emit(t, address), address + [j]) <==> j in Numbers(t.kids)
  {
    if j in Numbers(t.kids) {
      NumberHasChild(t, address, j);
    }
    if HasAddress(Emit(t, address), address + [j]) {
      ChildHasNumber(t, address, j);
    }
  }

  lemma NumberHasChild(t: Tree, address: seq<nat>, j: nat)
    requires j in Numbers(t.kids)
    ensures HasAddress(Emit(t, address), address + [j])
  {
    hide EmitKids, Below;
    var out := EmitKids(t.kids, address);
    var k :| k in t.kids && k.number == j;
    var n :| 0 <= n < |t.kids| && t.kids[n] == k;
    EmitKidsBelow(t.kids, address);
    assert Emitted(out, address + [j]);
    var i :| 0 <= i < |out| && out[i].address == address + [j];
    assert out[i] in Emit(t, address);
  }

  lemma ChildHasNumber(t: Tree, address: seq<nat>, j: nat)
    requires HasAddress(Emit(t, address), address + [j])
    ensures j in Numbers(t.kids)
  {
    hide EmitKids;
    var c :| c in Emit(t, address) && c.address == address + [j];
    assert c in EmitKids(t.kids, address);
    var n := FromSomeKid(t.kids, address, c);
    var x := t.kids[n].number;
    hide Emit;
    EmitBelow(t.kids[n].tree, address + [x]);
    SameNumber(c.address, address, j, x);
    assert t.kids[n] in t.kids;
  }

  /** With different numbers, what lies below a frame of one branch is emitted by that branch. */
  lemma BranchChildren(t: Tree, address: seq<nat>, n: nat, g: FlatFrame, j: nat)
    requires Apart(t.kids) && n < |t.kids| && g in Emit(t.kids[n].tree, address + [t.kids[n].number])
    ensures g in Emit(t, address)
    ensures HasAddress(Emit(t, address), g.address + [j])
       <==> HasAddress(Emit(t.kids[n].tree, address + [t.kids[n].number]), g.address + [j])
  {
    var x := t.kids[n].number;
    var all, sub := Emit(t, address), Emit(t.kids[n].tree, address + [x]);
    OfKid(t.kids, address, n, g);
    EmitBelow(t.kids[n].tree, address + [x]);
    BelowShorter(g.address, address, x);
    if HasAddress(sub, g.address + [j]) {
      var c :| c in sub && c.address == g.address + [j];
      OfKid(t.kids, address, n, c);
      assert c in all;
    }
    if HasAddress(all, g.address + [j]) {
      var c :| c in all && c.address == g.address + [j];
      assert c in EmitKids(t.kids, address);
      var m := FromSomeKid(t.kids, address, c);
      EmitBelow(t.kids[m].tree, address + [t.kids[m].number]);
      BelowSameNumber(g.address, c.address, address, x, t.kids[m].number);
      assert m == n;
      assert c in sub;
    }
  }

  lemma {:induction false} MatchedIff(t: Tree, address: seq<nat>)
    requires Counted(t)
    ensures Matched(Emit(t, address)) <==> Full(t)
    decreases t
  {
    forall n | 0 <= n < |t.kids|
      ensures Counted(t.kids[n].tree)
      ensures Matched(Emit(t.kids[n].tree, address + [t.kids[n].number])) <==> Full(t.kids[n].tree)
    {
      assert t.kids[n] in t.kids && t.kids[n].tree < t.kids[n];
      MatchedIff(t.kids[n].tree, address + [t.kids[n].number]);
    }
    if Matched(Emit(t, address)) {
      MatchedIsFull(t, address);
    }
    if Full(t) {
      FullIsMatched(t, address);
    }
  }

  lemma MatchedIsFull(t: Tree, address: seq<nat>)
    requires Counted(t) && Matched(Emit(t, address))
    requires forall n :: 0 <= n < |t.kids| ==>
      (Matched(Emit(t.kids[n].tree, address + [t.kids[n].number])) <==> Full(t.kids[n].tree))
    ensures Full(t)
  {
    hide Full;
    var all := Emit(t, address);
    TopIsFull(t, address);
    forall n | 0 <= n < |t.kids| ensures Full(t.kids[n].tree) {
      var sub := Emit(t.kids[n].tree, address + [t.kids[n].number]);
      forall g, j: nat | g in sub ensures HasAddress(sub, g.address + [j]) <==> j < g.head.subtraces {
        BranchChildren(t, address, n, g, j);
      }
    }
    FullFrom(t);
  }

  lemma FullFrom(t: Tree)
    requires Numbers(t.kids) == Upto(|t.kids|) && forall n :: 0 <= n < |t.kids| ==> Full(t.kids[n].tree)
    ensures Full(t)
  {
  }

  /** The shallowest frame shows whether its own branches use every number. */
  lemma TopIsFull(t: Tree, address: seq<nat>)
    requires Counted(t) && Matched(Emit(t, address))
    ensures Numbers(t.kids) == Upto(|t.kids|) && Apart(t.kids)
  {
    var all := Emit(t, address);
    assert FlatFrame(t.head, address) in all;
    forall j: nat ensures j in Numbers(t.kids) <==> j in Upto(|t.kids|) {
      TopChildren(t, address, j);
    }
    NumbersSize(t.kids);
  }

  lemma FullIsMatched(t: Tree, address: seq<nat>)
    requires Counted(t) && Full(t)
    requires forall n :: 0 <= n < |t.kids| ==> Matched(Emit(t.kids[n].tree, address + [t.kids[n].number]))
    ensures Matched(Emit(t, address))
  {
    var all := Emit(t, address);
    NumbersSize(t.kids);
    forall g, j: nat | g in all ensures HasAddress(all, g.address + [j]) <==> j < g.head.subtraces {
      if g in EmitKids(t.kids, address) {
        var n := FromSomeKid(t.kids, address, g);
        BranchChildren(t, address, n, g, j);
      } else {
        TopChildren(t, address, j);
      }
    }
  }

  /** The branches of one frame use the numbers 0 to Subtraces-1 exactly when it makes no calls or its pre-call join
      points come first. */
  lemma NumbersFullIff(f: CallFrame)
    ensures Numbers(TreeOf(f).kids) == Upto(TreeOf(f).head.subtraces) <==> f.calls == [] || ListPreFirst(f.joinPoints)
    ensures |TreeOf(f).kids| == TreeOf(f).head.subtraces
  {
    var kids := TreeOf(f).kids;
    forall k | k in kids ensures k.number < |kids| {
      BranchesOf(f, k);
    }
    NumbersRightIff(f);
    AllNumbers(kids);
    ApartIff(f);
  }

  lemma {:induction false} FullIff(f: CallFrame)
    ensures Full(TreeOf(f)) <==> Unambiguous(f)
    decreases f, 0
  {
    hide AspectTree;
    NumbersFullIff(f);
    BranchTrees(f, t => Full(t));
    forall i | 0 <= i < |f.calls| ensures Full(TreeOf(f.calls[i])) <==> Unambiguous(f.calls[i]) {
      FullIff(f.calls[i]);
    }
    forall i | 0 <= i < |f.joinPoints|
      ensures Full(AspectTree(f.joinPoints[i])) <==> AspectUnambiguous(f.joinPoints[i])
    {
      AspectFullIff(f.joinPoints[i]);
    }
    EachOf(f.calls, f.joinPoints);
  }

  lemma {:induction false} AspectFullIff(j: AspectFrame)
    ensures Full(AspectTree(j)) <==> AspectUnambiguous(j)
    decreases j, 0
  {
    hide TreeOf;
    var kids := AspectTree(j).kids;
    CallKidsExact(j.calls, |j.calls|, 0);
    forall i | 0 <= i < |j.calls| ensures Full(TreeOf(j.calls[i])) <==> Unambiguous(j.calls[i]) {
      FullIff(j.calls[i]);
    }
    EachOf(j.calls, []);
    assert forall i :: 0 <= i < |kids| ==> kids[i] in kids && kids[i].tree == TreeOf(j.calls[i]);
    AllNumbers(kids);
  }

  /** In a flat trace every frame with Subtraces k has exactly the children 0 to k-1, if and only if every frame that
      makes calls has its pre-call join points first. */
  lemma SubtracesExactIff(f: CallFrame, address: seq<nat>)
    ensures Matched(Emit(TreeOf(f), address)) <==> Unambiguous(f)
  {
    TraceCounted(f);
    MatchedIff(TreeOf(f), address);
    FullIff(f);
  }

  /** A post-call join point before a pre-call one: out of order, but the children are all there and unique; with a
      call an address repeats and a child is missing. */
  lemma PostBeforePre(address: seq<nat>)
    ensures var jps := [AspectFrame(false, "", []), AspectFrame(true, "", [])];
      var f, g := CallFrame(0xf1, "", [], jps), CallFrame(0xf1, "", [CallFrame(0xf1, "", [], [])], jps);
      && !Ascending(Emit(TreeOf(f), address))
      && Distinct(Emit(TreeOf(f), address)) && Matched(Emit(TreeOf(f), address))
      && !Distinct(Emit(TreeOf(g), address)) && !Matched(Emit(TreeOf(g), address))
  {
    var jps := [AspectFrame(false, "", []), AspectFrame(true, "", [])];
    var f, g := CallFrame(0xf1, "", [], jps), CallFrame(0xf1, "", [CallFrame(0xf1, "", [], [])], jps);
    assert !jps[0].isPreCall && jps[1].isPreCall;
    OrderedIff(f, address);
    assert Unambiguous(f) && !Unambiguous(g);
    hide Unambiguous, Distinct, Matched, Emit, TreeOf;
    UniqueIff(f, address);
    UniqueIff(g, address);
    SubtracesExactIff(f, address);
    SubtracesExactIff(g, address);
  }
}
