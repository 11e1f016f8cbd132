/** tracers/native/call_flat.go: a nested call trace flattened into a list of addressed frames. */
module FlatTrace {
  import opened Uint

  const REVERTED: string := "execution reverted"

  /** callFrame and aspectCallFrame of tracers/native/call.go, as far as flattening looks at them. */
  datatype CallFrame = CallFrame(typ: Byte, error: string, calls: seq<CallFrame>, joinPoints: seq<AspectFrame>)
  datatype AspectFrame = AspectFrame(isPreCall: bool, error: string, calls: seq<CallFrame>)

  datatype Kind = FlatCall | FlatCreate | FlatSuicide | FlatJoinPoint

  /** What a flat frame says apart from its place. */
  datatype Head = Head(kind: Kind, error: string, hasResult: bool, subtraces: nat)

  datatype FlatFrame = FlatFrame(head: Head, address: seq<nat>)

  /** The frame types flattening knows. */
  predicate Recognised(typ: Byte) {
    typ == 0xf0 || typ == 0xf5 || typ == 0xff || typ == 0xf1 || typ == 0xfa || typ == 0xf2 || typ == 0xf4
  }

  function KindOf(typ: Byte): (k: Kind) {
    if typ == 0xf0 || typ == 0xf5 then FlatCreate else if typ == 0xff then FlatSuicide else FlatCall
  }

  /** A failed frame keeps its result only when it reverted. */
  function HeadOf(f: CallFrame): (h: Head) {
    var failed := f.error != "" && f.error != REVERTED;
    Head(KindOf(f.typ), f.error, KindOf(f.typ) != FlatSuicide && !failed, |f.calls| + |f.joinPoints|)
  }

  function AspectHeadOf(j: AspectFrame): (h: Head) {
    Head(FlatJoinPoint, j.error, j.error == "" || j.error == REVERTED, |j.calls|)
  }

  /** What a flat frame must say of the frame it stands for: created by CREATE and CREATE2 only, a suicide for
      SELFDESTRUCT only, its error, a result unless it is a suicide or failed otherwise than by reverting, and how many
      frames lie directly below. */
  ghost predicate HeadShows(h: Head, f: CallFrame) {
    && (h.kind == FlatCreate <==> f.typ == 0xf0 || f.typ == 0xf5)
    && (h.kind == FlatSuicide <==> f.typ == 0xff)
    && (h.kind == FlatCall <==> f.typ != 0xf0 && f.typ != 0xf5 && f.typ != 0xff)
    && h.error == f.error
    && (h.hasResult <==> f.typ != 0xff && (f.error == "" || f.error == "execution reverted"))
    && h.subtraces == |f.calls| + |f.joinPoints|
  }

  ghost predicate AspectHeadShows(h: Head, j: AspectFrame) {
    && h.kind == FlatJoinPoint && h.error == j.error && h.subtraces == |j.calls|
    && (h.hasResult <==> j.error == "" || j.error == "execution reverted")
  }

  /** Every frame of the trace has a known type. */
  predicate AllRecognised(f: CallFrame) {
    && f.typ in {0xf0, 0xf1, 0xf2, 0xf4, 0xf5, 0xfa, 0xff}
    && (forall c :: c in f.calls ==> AllRecognised(c))
    && (forall j :: j in f.joinPoints ==> AspectRecognised(j))
  }

  predicate AspectRecognised(j: AspectFrame) {
    forall c :: c in j.calls ==> AllRecognised(c)
  }

  // ---- the trace as a tree with numbered branches, in the order of emission

  datatype Tree = Tree(head: Head, kids: seq<Kid>)
  datatype Kid = Kid(number: nat, tree: Tree)

  function TreeOf(f: CallFrame): (t: Tree)
    decreases f, 0
  {
    var pre := PreKids(f.joinPoints, |f.joinPoints|);
    Tree(HeadOf(f), pre + CallKids(f.calls, |f.calls|, |pre|) + PostKids(f.joinPoints, |f.joinPoints|, |f.calls|))
  }

  function AspectTree(j: AspectFrame): (t: Tree)
    decreases j, 0
  {
    Tree(AspectHeadOf(j), CallKids(j.calls, |j.calls|, 0))
  }

  /** The pre-call join points among the first n, each numbered by its position in the list. */
  function PreKids(jps: seq<AspectFrame>, n: nat): (kids: seq<Kid>)
    requires n <= |jps|
    decreases jps, n
  {
    if n == 0 then []
    else
      var before := PreKids(jps, n - 1);
      if jps[n - 1].isPreCall then before + [Kid(n - 1, AspectTree(jps[n - 1]))] else before
  }

  /** The first n calls, numbered from shift on. */
  function CallKids(calls: seq<CallFrame>, n: nat, shift: nat): (kids: seq<Kid>)
    requires n <= |calls|
    ensures |kids| == n
    decreases calls, n
  {
    if n == 0 then [] else CallKids(calls, n - 1, shift) + [Kid(n - 1 + shift, TreeOf(calls[n - 1]))]
  }

  /** The other join points among the first n, numbered by position plus shift. */
  function PostKids(jps: seq<AspectFrame>, n: nat, shift: nat): (kids: seq<Kid>)
    requires n <= |jps|
    decreases jps, n
  {
    if n == 0 then []
    else
      var before := PostKids(jps, n - 1, shift);
      if jps[n - 1].isPreCall then before else before + [Kid(n - 1 + shift, AspectTree(jps[n - 1]))]
  }

  /** A frame, then everything below it. */
  function Emit(t: Tree, address: seq<nat>): (out: seq<FlatFrame>)
    decreases t, 0
  {
    [FlatFrame(t.head, address)] + EmitKids(t.kids, address)
  }

  function EmitKids(kids: seq<Kid>, address: seq<nat>): (out: seq<FlatFrame>)
    decreases kids, 0
  {
    if kids == [] then []
    else
      var last := kids[|kids| - 1];
      assert last.tree < last;
      EmitKids(kids[..|kids| - 1], address) + Emit(last.tree, address + [last.number])
  }

  lemma {:induction false} EmitKidsConcat(a: seq<Kid>, b: seq<Kid>, address: seq<nat>)
    ensures EmitKids(a + b, address) == EmitKids(a, address) + EmitKids(b, address)
    decreases |b|
  {
    if b == [] {
      assert a + b == a;
    } else {
      var init := b[..|b| - 1];
      assert (a + b)[..|a + b| - 1] == a + init;
      EmitKidsConcat(a, init, address);
    }
  }

  lemma EmitKidsSnoc(kids: seq<Kid>, k: Kid, address: seq<nat>)
    ensures EmitKids(kids + [k], address) == EmitKids(kids, address) + Emit(k.tree, address + [k.number])
  {
    assert (kids + [k])[..|kids|] == kids;
  }

  lemma EmitNoKids(address: seq<nat>)
    ensures EmitKids([], address) == []
  {
  }

  // ---- the source's recursion with append loops

  function ChildTraceAddress(a: seq<nat>, i: nat): (child: seq<nat>) {
    a + [i]
  }

  /** flatFromNested: fails exactly when some frame has an unrecognised type. */
  method FlatFromNested(input: CallFrame, traceAddress: seq<nat>) returns (output: Option<seq<FlatFrame>>)
    ensures output.Some? <==> AllRecognised(input)
    ensures output.Some? ==> output.value == Emit(TreeOf(input), traceAddress)
    ensures output.Some? ==>
      && |output.value| > 0 && output.value[0].address == traceAddress && HeadShows(output.value[0].head, input)
    decreases input, 0
  {
    hide Emit, EmitKids, TreeOf, PreKids, CallKids, PostKids;
    if !Recognised(input.typ) {
      return None;
    }
    var frame := [FlatFrame(HeadOf(input), traceAddress)];
    var jps, calls := input.joinPoints, input.calls;
    var pre, preCount := FlatPre(jps, traceAddress);
    if pre == None {
      return None;
    }
    var sub := FlatCalls(calls, traceAddress, preCount);
    if sub == None {
      return None;
    }
    var post := FlatPost(jps, traceAddress, |calls|);
    if post == None {
      return None;
    }
    FlatParts(input, traceAddress);
    return Some(frame + pre.value + sub.value + post.value);
  }

  /** The list of a frame is its head, then its pre-call join points, its calls and its other join points. */
  lemma FlatParts(f: CallFrame, address: seq<nat>)
    ensures var jps, n, pre := f.joinPoints, |f.calls|, PreKids(f.joinPoints, |f.joinPoints|);
      Emit(TreeOf(f), address)
      == [FlatFrame(HeadOf(f), address)] + EmitKids(pre, address) + EmitKids(CallKids(f.calls, n, |pre|), address)
         + EmitKids(PostKids(jps, |jps|, n), address)
  {
    var jps, n, pre := f.joinPoints, |f.calls|, PreKids(f.joinPoints, |f.joinPoints|);
    var mid, post := CallKids(f.calls, n, |pre|), PostKids(jps, |jps|, n);
    EmitKidsConcat(pre, mid, address);
    EmitKidsConcat(pre + mid, post, address);
  }

  /** flatAspectNested */
  method FlatAspectNested(input: AspectFrame, traceAddress: seq<nat>) returns (output: Option<seq<FlatFrame>>)
    ensures output.Some? <==> AspectRecognised(input)
    ensures output.Some? ==> output.value == Emit(AspectTree(input), traceAddress)
    ensures output.Some? ==>
      && |output.value| > 0 && output.value[0].address == traceAddress
      && AspectHeadShows(output.value[0].head, input)
    decreases input, 0
  {
    var sub := FlatCalls(input.calls, traceAddress, 0);
    if sub == None {
      return None;
    }
    return Some([FlatFrame(AspectHeadOf(input), traceAddress)] + sub.value);
  }

  /** The loop over the sub-calls. */
  method FlatCalls(calls: seq<CallFrame>, traceAddress: seq<nat>, shift: nat) returns (output: Option<seq<FlatFrame>>)
    ensures output.Some? <==> forall c :: c in calls ==> AllRecognised(c)
    ensures output.Some? ==> output.value == EmitKids(CallKids(calls, |calls|, shift), traceAddress)
    decreases calls, 0
  {
    hide Emit, EmitKids, TreeOf, AllRecognised;
    EmitNoKids(traceAddress);
    var out: seq<FlatFrame> := [];
    for i := 0 to |calls|
      invariant out == EmitKids(CallKids(calls, i, shift), traceAddress)
      invariant forall k :: 0 <= k < i ==> AllRecognised(calls[k])
    {
      var flat := FlatFromNested(calls[i], ChildTraceAddress(traceAddress, i + shift));
      if flat == None {
        return None;
      }
      EmitKidsSnoc(CallKids(calls, i, shift), Kid(i + shift, TreeOf(calls[i])), traceAddress);
      out := out + flat.value;
    }
    return Some(out);
  }

  /** The loop over the pre-call join points, which also counts them. */
  method FlatPre(jps: seq<AspectFrame>, traceAddress: seq<nat>) returns (output: Option<seq<FlatFrame>>, count: nat)
    ensures output.Some? <==> forall j :: j in jps && j.isPreCall ==> AspectRecognised(j)
    ensures output.Some? ==>
      output.value == EmitKids(PreKids(jps, |jps|), traceAddress) && count == |PreKids(jps, |jps|)|
    decreases jps, 0
  {
    hide Emit, EmitKids, AspectTree, AspectRecognised;
    EmitNoKids(traceAddress);
    var out: seq<FlatFrame> := [];
    count := 0;
    for i := 0 to |jps|
      invariant out == EmitKids(PreKids(jps, i), traceAddress) && count == |PreKids(jps, i)|
      invariant forall k :: 0 <= k < i && jps[k].isPreCall ==> AspectRecognised(jps[k])
    {
      if jps[i].isPreCall {
        var flat := FlatAspectNested(jps[i], ChildTraceAddress(traceAddress, i));
        if flat == None {
          return None, 0;
        }
        EmitKidsSnoc(PreKids(jps, i), Kid(i, AspectTree(jps[i])), traceAddress);
        out, count := out + flat.value, count + 1;
      }
    }
    return Some(out), count;
  }

  /** The loop over the other join points. */
  method FlatPost(jps: seq<AspectFrame>, traceAddress: seq<nat>, shift: nat) returns (output: Option<seq<FlatFrame>>)
    ensures output.Some? <==> forall j :: j in jps && !j.isPreCall ==> AspectRecognised(j)
    ensures output.Some? ==> output.value == EmitKids(PostKids(jps, |jps|, shift), traceAddress)
    decreases jps, 0
  {
    hide Emit, EmitKids, AspectTree, AspectRecognised;
    EmitNoKids(traceAddress);
    var out: seq<FlatFrame> := [];
    for i := 0 to |jps|
      invariant out == EmitKids(PostKids(jps, i, shift), traceAddress)
      invariant forall k :: 0 <= k < i && !jps[k].isPreCall ==> AspectRecognised(jps[k])
    {
      if !jps[i].isPreCall {
        var flat := FlatAspectNested(jps[i], ChildTraceAddress(traceAddress, i + shift));
        if flat == None {
          return None;
        }
        EmitKidsSnoc(PostKids(jps, i, shift), Kid(i + shift, AspectTree(jps[i])), traceAddress);
        out := out + flat.value;
      }
    }
    return Some(out);
  }

  // ---- order of the addresses

  /** Lexicographic order; a prefix comes first. */
  predicate LexLess(a: seq<nat>, b: seq<nat>) {
    b != [] && (a == [] || a[0] < b[0] || (a[0] == b[0] && LexLess(a[1..], b[1..])))
  }

  predicate Ascending(frames: seq<FlatFrame>) {
    forall i, j :: 0 <= i < j < |frames| ==> LexLess(frames[i].address, frames[j].address)
  }

  /** The numbers of a frame's branches grow, at every frame. */
  predicate Increasing(t: Tree)
    decreases t, 0
  {
    KidsIncreasing(t.kids)
  }

  predicate KidsIncreasing(kids: seq<Kid>)
    decreases kids, 0
  {
    && (forall i, j :: 0 <= i < j < |kids| ==> kids[i].number < kids[j].number)
    && (forall k :: k in kids ==> assert k.tree < k; Increasing(k.tree))
  }

  predicate Below(a: seq<nat>, prefix: seq<nat>) {
    |prefix| <= |a| && a[..|prefix|] == prefix
  }

  /** After a common start the next step decides. */
  lemma {:induction false} LexDecides(p: seq<nat>, x: nat, y: nat, a: seq<nat>, b: seq<nat>)
    requires Below(a, p + [x]) && Below(b, p + [y])
    ensures x < y ==> LexLess(a, b)
    ensures x > y ==> !LexLess(a, b)
    decreases |p|
  {
    assert a[|p|] == (p + [x])[|p|] == x && b[|p|] == (p + [y])[|p|] == y;
    if p != [] {
      assert a[0] == p[0] == b[0];
      assert a[1..][..|p|] == (p + [x])[1..] == p[1..] + [x];
      assert b[1..][..|p|] == (p + [y])[1..] == p[1..] + [y];
      LexDecides(p[1..], x, y, a[1..], b[1..]);
    }
  }

  lemma {:induction false} LexIrreflexive(a: seq<nat>)
    ensures !LexLess(a, a)
  {
    if a != [] {
      LexIrreflexive(a[1..]);
    }
  }

  lemma {:induction false} LexPrefix(a: seq<nat>, b: seq<nat>)
    requires Below(b, a) && |a| < |b|
    ensures LexLess(a, b)
    decreases |a|
  {
    if a != [] {
      assert b[1..][..|a| - 1] == a[1..];
      LexPrefix(a[1..], b[1..]);
    }
  }

  /** Everything a tree emits lies below its address, which comes first. */
  lemma {:induction false} EmitBelow(t: Tree, address: seq<nat>)
    ensures Emit(t, address)[0].address == address
    ensures forall i :: 0 <= i < |Emit(t, address)| ==> Below(Emit(t, address)[i].address, address)
    ensures forall i :: 0 < i < |Emit(t, address)| ==> |address| < |Emit(t, address)[i].address|
    decreases t, 0
  {
    EmitKidsBelow(t.kids, address);
  }

  /** Each emitted frame lies below some branch, and each branch has a frame at its very address. */
  lemma {:induction false} EmitKidsBelow(kids: seq<Kid>, address: seq<nat>)
    ensures forall i :: 0 <= i < |EmitKids(kids, address)| ==>
      UnderSome(kids, address, EmitKids(kids, address)[i].address)
    ensures forall i :: 0 <= i < |EmitKids(kids, address)| ==>
      Below(EmitKids(kids, address)[i].address, address) && |address| < |EmitKids(kids, address)[i].address|
    ensures forall k :: 0 <= k < |kids| ==> Emitted(EmitKids(kids, address), address + [kids[k].number])
    decreases kids, 0
  {
    if kids != [] {
      var init, last := kids[..|kids| - 1], kids[|kids| - 1];
      assert last.tree < last;
      EmitKidsBelow(init, address);
      EmitBelow(last.tree, address + [last.number]);
      var a, b := EmitKids(init, address), Emit(last.tree, address + [last.number]);
      var all := EmitKids(kids, address);
      assert all == a + b;
      forall i | 0 <= i < |all| ensures
        && UnderSome(kids, address, all[i].address)
        && Below(all[i].address, address) && |address| < |all[i].address|
      {
        if i < |a| {
          assert UnderSome(init, address, a[i].address);
        } else {
          BelowShorter(b[i - |a|].address, address, last.number);
          assert kids[|kids| - 1] == last;
        }
      }
      forall k | 0 <= k < |kids| ensures Emitted(all, address + [kids[k].number]) {
        if k < |init| {
          var i :| 0 <= i < |a| && a[i].address == address + [init[k].number];
          assert all[i].address == address + [kids[k].number];
        } else {
          assert all[|a|] == b[0];
        }
      }
    }
  }

  lemma BelowShorter(a: seq<nat>, p: seq<nat>, x: nat)
    requires Below(a, p + [x])
    ensures Below(a, p) && |p| < |a|
  {
    assert a[..|p|] == (p + [x])[..|p|];
  }

  predicate Emitted(frames: seq<FlatFrame>, a: seq<nat>) {
    exists i :: 0 <= i < |frames| && frames[i].address == a
  }

  predicate UnderSome(kids: seq<Kid>, address: seq<nat>, a: seq<nat>) {
    exists k :: 0 <= k < |kids| && Below(a, address + [kids[k].number])
  }

  /** The list is in strictly increasing order exactly when the branches are numbered increasingly everywhere. */
  lemma {:induction false} AscendingIff(t: Tree, address: seq<nat>)
    ensures Ascending(Emit(t, address)) <==> Increasing(t)
    decreases t, 0
  {
    var kids := EmitKids(t.kids, address);
    KidsAscendingIff(t.kids, address);
    EmitBelow(t, address);
    assert Emit(t, address)[1..] == kids;
    if Ascending(kids) {
      forall i, j | 0 <= i < j < |Emit(t, address)|
        ensures LexLess(Emit(t, address)[i].address, Emit(t, address)[j].address)
      {
        if i == 0 {
          LexPrefix(address, Emit(t, address)[j].address);
        } else {
          assert kids[i - 1] == Emit(t, address)[i] && kids[j - 1] == Emit(t, address)[j];
        }
      }
    }
    if Ascending(Emit(t, address)) {
      forall i, j | 0 <= i < j < |kids| ensures LexLess(kids[i].address, kids[j].address) {
        assert kids[i] == Emit(t, address)[i + 1] && kids[j] == Emit(t, address)[j + 1];
      }
    }
  }

  lemma {:induction false} KidsAscendingIff(kids: seq<Kid>, address: seq<nat>)
    ensures Ascending(EmitKids(kids, address)) <==> KidsIncreasing(kids)
    decreases kids, 0
  {
    if kids != [] {
      var init, last := kids[..|kids| - 1], kids[|kids| - 1];
      assert last.tree < last;
      var a, b := EmitKids(init, address), Emit(last.tree, address + [last.number]);
      assert EmitKids(kids, address) == a + b;
      KidsAscendingIff(init, address);
      AscendingIff(last.tree, address + [last.number]);
      if KidsIncreasing(kids) {
        InitIncreasing(kids);
        JoinAscends(init, last, address);
      }
      if Ascending(a + b) {
        SplitAscends(a, b);
        NumbersGrow(init, last, address);
        InitIncreases(kids);
      }
    }
  }

  lemma {:induction false} InitIncreasing(kids: seq<Kid>)
    requires kids != [] && KidsIncreasing(kids)
    ensures KidsIncreasing(kids[..|kids| - 1]) && Increasing(kids[|kids| - 1].tree)
    ensures forall k :: 0 <= k < |kids| - 1 ==> kids[k].number < kids[|kids| - 1].number
  {
    assert kids[|kids| - 1] in kids;
  }

  lemma {:induction false} InitIncreases(kids: seq<Kid>)
    requires kids != [] && KidsIncreasing(kids[..|kids| - 1]) && Increasing(kids[|kids| - 1].tree)
    requires forall k :: 0 <= k < |kids| - 1 ==> kids[k].number < kids[|kids| - 1].number
    ensures KidsIncreasing(kids)
  {
    var init, last := kids[..|kids| - 1], kids[|kids| - 1];
    assert kids == init + [last];
  }

  lemma {:induction false} SplitAscends(a: seq<FlatFrame>, b: seq<FlatFrame>)
    requires Ascending(a + b)
    ensures Ascending(a) && Ascending(b)
    ensures forall i, j :: 0 <= i < |a| && 0 <= j < |b| ==> LexLess(a[i].address, b[j].address)
  {
    forall i, j | 0 <= i < j < |a| ensures LexLess(a[i].address, a[j].address) {
      assert a[i] == (a + b)[i] && a[j] == (a + b)[j];
    }
    forall i, j | 0 <= i < j < |b| ensures LexLess(b[i].address, b[j].address) {
      assert b[i] == (a + b)[|a| + i] && b[j] == (a + b)[|a| + j];
    }
    forall i, j | 0 <= i < |a| && 0 <= j < |b| ensures LexLess(a[i].address, b[j].address) {
      assert a[i] == (a + b)[i] && b[j] == (a + b)[|a| + j];
    }
  }

  /** Smaller numbers first: the joined list ascends. */
  lemma {:induction false} JoinAscends(init: seq<Kid>, last: Kid, address: seq<nat>)
    requires Ascending(EmitKids(init, address)) && Ascending(Emit(last.tree, address + [last.number]))
    requires forall k :: 0 <= k < |init| ==> init[k].number < last.number
    ensures Ascending(EmitKids(init, address) + Emit(last.tree, address + [last.number]))
  {
    var a, b := EmitKids(init, address), Emit(last.tree, address + [last.number]);
    EmitKidsBelow(init, address);
    EmitBelow(last.tree, address + [last.number]);
    var all := a + b;
    forall i, j | 0 <= i < j < |all| ensures LexLess(all[i].address, all[j].address) {
      if i < |a| <= j {
        var k :| 0 <= k < |init| && Below(a[i].address, address + [init[k].number]);
        LexDecides(address, init[k].number, last.number, a[i].address, b[j - |a|].address);
      }
    }
  }

  /** In an ascending list a branch's number is larger than those before. */
  lemma {:induction false} NumbersGrow(init: seq<Kid>, last: Kid, address: seq<nat>)
    requires Ascending(EmitKids(init, address) + Emit(last.tree, address + [last.number]))
    ensures forall k :: 0 <= k < |init| ==> init[k].number < last.number
  {
    hide EmitKids, Ascending, LexLess, UnderSome;
    var a, b := EmitKids(init, address), Emit(last.tree, address + [last.number]);
    EmitKidsBelow(init, address);
    SplitAscends(a, b);
    assert b[0].address == address + [last.number];
    forall k | 0 <= k < |init| ensures init[k].number < last.number {
      var i :| 0 <= i < |a| && a[i].address == address + [init[k].number];
      assert LexLess(a[i].address, b[0].address);
      LexDecides(address, init[k].number, last.number, a[i].address, b[0].address);
      LexIrreflexive(b[0].address);
    }
  }

  // ---- when the numbers are right

  /** Pre-call join points come before the others, in every frame of the trace. */
  predicate PreFirst(f: CallFrame) {
    && ListPreFirst(f.joinPoints)
    && (forall c :: c in f.calls ==> PreFirst(c))
    && (forall j :: j in f.joinPoints ==> AspectPreFirst(j))
  }

  predicate AspectPreFirst(j: AspectFrame) {
    forall c :: c in j.calls ==> PreFirst(c)
  }

  predicate ListPreFirst(jps: seq<AspectFrame>) {
    forall i, j :: 0 <= i < j < |jps| && jps[j].isPreCall ==> jps[i].isPreCall
  }

  predicate NumbersIncrease(kids: seq<Kid>) {
    forall i, j :: 0 <= i < j < |kids| ==> kids[i].number < kids[j].number
  }

  /** Branch k has number k. */
  predicate Dense(kids: seq<Kid>) {
    forall k :: 0 <= k < |kids| ==> kids[k].number == k
  }

  /** n growing numbers below n are 0 to n-1. */
  lemma {:induction false} IncreasingBelowIsDense(kids: seq<Kid>)
    requires NumbersIncrease(kids)
    requires forall k :: k in kids ==> k.number < |kids|
    ensures Dense(kids)
  {
    forall k | 0 <= k < |kids| ensures kids[k].number == k {
      AtLeastPosition(kids, k);
      AtMostPosition(kids, |kids|, k);
    }
  }

  lemma {:induction false} AtLeastPosition(kids: seq<Kid>, k: nat)
    requires NumbersIncrease(kids) && k < |kids|
    ensures kids[k].number >= k
  {
    if k > 0 {
      AtLeastPosition(kids, k - 1);
    }
  }

  lemma {:induction false} AtMostPosition(kids: seq<Kid>, n: nat, k: nat)
    requires NumbersIncrease(kids) && k < |kids| == n
    requires forall c :: c in kids ==> c.number < n
    ensures kids[k].number <= k
    decreases n - k
  {
    if k + 1 < n {
      AtMostPosition(kids, n, k + 1);
    } else {
      assert kids[k] in kids;
    }
  }

  /** The positions among the first n join points that are, or are not, pre-call ones. */
  function Positions(jps: seq<AspectFrame>, n: nat, pre: bool): (p: seq<nat>)
    requires n <= |jps|
  {
    if n == 0 then []
    else
      var before := Positions(jps, n - 1, pre);
      if jps[n - 1].isPreCall == pre then before + [n - 1] else before
  }

  lemma {:induction false} PositionsExact(jps: seq<AspectFrame>, n: nat, pre: bool)
    requires n <= |jps|
    ensures forall i: nat :: i in Positions(jps, n, pre) <==> i < n && jps[i].isPreCall == pre
    ensures |Positions(jps, n, true)| + |Positions(jps, n, false)| == n
  {
    if n > 0 {
      PositionsExact(jps, n - 1, pre);
    }
  }

  lemma {:induction false} KidsAtPositions(jps: seq<AspectFrame>, n: nat, shift: nat)
    requires n <= |jps|
    ensures var kids, p := PreKids(jps, n), Positions(jps, n, true);
      |kids| == |p| && forall k :: 0 <= k < |p| ==> p[k] < n && kids[k] == Kid(p[k], AspectTree(jps[p[k]]))
    ensures var kids, p := PostKids(jps, n, shift), Positions(jps, n, false);
      |kids| == |p| && forall k :: 0 <= k < |p| ==> p[k] < n && kids[k] == Kid(p[k] + shift, AspectTree(jps[p[k]]))
  {
    hide AspectTree;
    if n > 0 {
      KidsAtPositions(jps, n - 1, shift);
    }
  }

  /** With the pre-call ones first, the positions are 0 to p-1, then p to n-1. */
  lemma {:induction false} PreFirstPositions(jps: seq<AspectFrame>, n: nat)
    requires n <= |jps| && ListPreFirst(jps)
    ensures var p, q := Positions(jps, n, true), Positions(jps, n, false);
      && (forall k :: 0 <= k < |p| ==> p[k] == k)
      && (forall k :: 0 <= k < |q| ==> q[k] == |p| + k)
  {
    if n > 0 {
      PreFirstPositions(jps, n - 1);
      PositionsExact(jps, n - 1, false);
      var q := Positions(jps, n - 1, false);
      assert q != [] ==> q[0] in q;
    }
  }

  lemma {:induction false} CallKidsExact(calls: seq<CallFrame>, n: nat, shift: nat)
    requires n <= |calls|
    ensures var kids := CallKids(calls, n, shift);
      forall k :: 0 <= k < n ==> kids[k] == Kid(k + shift, TreeOf(calls[k]))
  {
    hide TreeOf;
    if n > 0 {
      CallKidsExact(calls, n - 1, shift);
    }
  }

  /** The branches of one frame are numbered 0 to Subtraces-1 in the order of emission exactly when its pre-call join
      points come first, and exactly when the numbers grow at all. */
  lemma {:induction false} NumbersRightIff(f: CallFrame)
    ensures |TreeOf(f).kids| == TreeOf(f).head.subtraces
    ensures Dense(TreeOf(f).kids) <==> ListPreFirst(f.joinPoints)
    ensures NumbersIncrease(TreeOf(f).kids) <==> ListPreFirst(f.joinPoints)
  {
    var jps, n := f.joinPoints, |f.calls|;
    var pre := PreKids(jps, |jps|);
    var mid, post := CallKids(f.calls, n, |pre|), PostKids(jps, |jps|, n);
    var kids := TreeOf(f).kids;
    assert kids == pre + mid + post;
    PositionsExact(jps, |jps|, true);
    KidsAtPositions(jps, |jps|, n);
    CallKidsExact(f.calls, n, |pre|);
    if NumbersIncrease(kids) {
      forall k | k in kids ensures k.number < |kids| {
        assert k in pre || k in mid || k in post;
      }
      IncreasingBelowIsDense(kids);
    }
    if Dense(kids) {
      DenseIsPreFirst(jps, kids);
    }
    if ListPreFirst(jps) {
      PreFirstPositions(jps, |jps|);
    }
  }

  lemma {:induction false} DenseIsPreFirst(jps: seq<AspectFrame>, kids: seq<Kid>)
    requires PreKids(jps, |jps|) <= kids && Dense(kids)
    ensures ListPreFirst(jps)
  {
    var pre, p := PreKids(jps, |jps|), Positions(jps, |jps|, true);
    PositionsExact(jps, |jps|, true);
    KidsAtPositions(jps, |jps|, 0);
    assert forall k :: 0 <= k < |p| ==> p[k] == pre[k].number == kids[k].number == k;
    forall i, j | 0 <= i < j < |jps| && jps[j].isPreCall ensures jps[i].isPreCall {
      assert j in p;
      assert p[i] == i && p[i] in p;
    }
  }

  predicate AllIncreasing(kids: seq<Kid>) {
    forall k :: k in kids ==> Increasing(k.tree)
  }

  lemma {:induction false} CallKidsAll(calls: seq<CallFrame>, n: nat, shift: nat)
    requires n <= |calls|
    ensures AllIncreasing(CallKids(calls, n, shift)) <==> forall i :: 0 <= i < n ==> Increasing(TreeOf(calls[i]))
  {
    hide Increasing, AllIncreasing, TreeOf;
    AllOfNone();
    if n > 0 {
      CallKidsAll(calls, n - 1, shift);
      AllSnoc(CallKids(calls, n - 1, shift), Kid(n - 1 + shift, TreeOf(calls[n - 1])));
    }
  }

  lemma {:induction false} JoinPointKidsAll(jps: seq<AspectFrame>, n: nat, shift: nat)
    requires n <= |jps|
    ensures AllIncreasing(PreKids(jps, n)) && AllIncreasing(PostKids(jps, n, shift))
       <==> forall i :: 0 <= i < n ==> Increasing(AspectTree(jps[i]))
  {
    hide Increasing, AllIncreasing, AspectTree;
    AllOfNone();
    if n > 0 {
      JoinPointKidsAll(jps, n - 1, shift);
      AllSnoc(PreKids(jps, n - 1), Kid(n - 1, AspectTree(jps[n - 1])));
      AllSnoc(PostKids(jps, n - 1, shift), Kid(n - 1 + shift, AspectTree(jps[n - 1])));
    }
  }

  lemma AllOfNone()
    ensures AllIncreasing([])
  {
  }

  lemma {:induction false} AllSnoc(kids: seq<Kid>, k: Kid)
    ensures AllIncreasing(kids + [k]) <==> AllIncreasing(kids) && Increasing(k.tree)
  {
    assert forall c :: c in kids + [k] <==> c in kids || c == k;
  }

  lemma {:induction false} AllParts(a: seq<Kid>, b: seq<Kid>, c: seq<Kid>)
    ensures AllIncreasing(a + b + c) <==> AllIncreasing(a) && AllIncreasing(b) && AllIncreasing(c)
  {
    assert forall k :: k in a + b + c <==> k in a || k in b || k in c;
  }

  /** Numbers grow everywhere exactly when pre-call join points come first everywhere. */
  lemma {:induction false} PreFirstIff(f: CallFrame)
    ensures Increasing(TreeOf(f)) <==> PreFirst(f)
    decreases f, 0
  {
    var jps, n := f.joinPoints, |f.calls|;
    var pre := PreKids(jps, |jps|);
    NumbersRightIff(f);
    AllParts(pre, CallKids(f.calls, n, |pre|), PostKids(jps, |jps|, n));
    CallKidsAll(f.calls, n, |pre|);
    JoinPointKidsAll(jps, |jps|, n);
    CallsPreFirstIff(f.calls);
    forall i | 0 <= i < |jps| ensures Increasing(AspectTree(jps[i])) <==> AspectPreFirst(jps[i]) {
      AspectPreFirstIff(jps[i]);
    }
    assert Increasing(TreeOf(f)) <==> NumbersIncrease(TreeOf(f).kids) && AllIncreasing(TreeOf(f).kids);
  }

  lemma {:induction false} CallsPreFirstIff(calls: seq<CallFrame>)
    ensures (forall i :: 0 <= i < |calls| ==> Increasing(TreeOf(calls[i]))) <==> forall c :: c in calls ==> PreFirst(c)
    decreases calls, 0
  {
    hide Increasing, PreFirst;
    forall i | 0 <= i < |calls| ensures Increasing(TreeOf(calls[i])) <==> PreFirst(calls[i]) {
      PreFirstIff(calls[i]);
    }
    assert forall i :: 0 <= i < |calls| ==> calls[i] in calls;
  }

  lemma {:induction false} AspectPreFirstIff(j: AspectFrame)
    ensures Increasing(AspectTree(j)) <==> AspectPreFirst(j)
    decreases j, 0
  {
    CallKidsAll(j.calls, |j.calls|, 0);
    CallKidsExact(j.calls, |j.calls|, 0);
    CallsPreFirstIff(j.calls);
    assert Increasing(AspectTree(j)) <==> NumbersIncrease(AspectTree(j).kids) && AllIncreasing(AspectTree(j).kids);
  }

  /** The flat trace is in strictly increasing lexicographic order of addresses, hence without duplicates, exactly when
      pre-call join points come first in every frame. */
  lemma OrderedIff(f: CallFrame, address: seq<nat>)
    ensures Ascending(Emit(TreeOf(f), address)) <==> PreFirst(f)
  {
    AscendingIff(TreeOf(f), address);
    PreFirstIff(f);
  }

  // ---- which branch emits a frame

  /** A frame emitted by the branches is emitted by one of them. */
  lemma {:induction false} FromSomeKid(kids: seq<Kid>, address: seq<nat>, g: FlatFrame) returns (k: nat)
    requires g in EmitKids(kids, address)
    ensures k < |kids| && g in Emit(kids[k].tree, address + [kids[k].number])
    decreases |kids|
  {
    var init, last := kids[..|kids| - 1], kids[|kids| - 1];
    if g in EmitKids(init, address) {
      k := FromSomeKid(init, address, g);
    } else {
      k := |kids| - 1;
    }
  }

  lemma {:induction false} OfKid(kids: seq<Kid>, address: seq<nat>, k: nat, g: FlatFrame)
    requires k < |kids| && g in Emit(kids[k].tree, address + [kids[k].number])
    ensures g in EmitKids(kids, address)
    decreases |kids|
  {
    if k < |kids| - 1 {
      OfKid(kids[..|kids| - 1], address, k, g);
    }
  }

  predicate HasAddress(frames: seq<FlatFrame>, a: seq<nat>) {
    exists g :: g in frames && g.address == a
  }

  /** Two addresses below branches of one frame, one extending the other: it is the same branch. */
  lemma {:induction false} BelowSameNumber(a: seq<nat>, b: seq<nat>, p: seq<nat>, x: nat, y: nat)
    requires Below(a, p + [x]) && Below(b, p + [y]) && Below(b, a)
    ensures x == y
  {
    assert a[|p|] == (p + [x])[|p|] == x;
    assert b[|p|] == (p + [y])[|p|] == y;
    assert b[..|a|][|p|] == b[|p|];
  }

  // ---- rebuilding the tree

  datatype Shape = Shape(head: Head, kids: seq<Shape>)

  function ShapeOf(t: Tree): (s: Shape)
    decreases t, 0
  {
    Shape(t.head, ShapesOf(t.kids))
  }

  function ShapesOf(kids: seq<Kid>): (s: seq<Shape>)
    ensures |s| == |kids|
    decreases kids, 0
  {
    if kids == [] then []
    else
      assert kids[0].tree < kids[0];
      [ShapeOf(kids[0].tree)] + ShapesOf(kids[1..])
  }

  /** Reads one tree off the front of a flat list; None when the list is too short. */
  function Parse(frames: seq<FlatFrame>): (r: Option<(Shape, seq<FlatFrame>)>)
    ensures r.Some? ==> |r.value.1| < |frames|
    decreases |frames|, 0
  {
    if frames == [] then None
    else
      match ParseAll(frames[1..], frames[0].head.subtraces)
      case None => None
      case Some((kids, rest)) => Some((Shape(frames[0].head, kids), rest))
  }

  function ParseAll(frames: seq<FlatFrame>, n: nat): (r: Option<(seq<Shape>, seq<FlatFrame>)>)
    ensures r.Some? ==> |r.value.1| <= |frames|
    decreases |frames|, 1, n
  {
    if n == 0 then Some(([], frames))
    else
      match Parse(frames)
      case None => None
      case Some((s, rest)) =>
        match ParseAll(rest, n - 1)
        case None => None
        case Some((others, end)) => Some(([s] + others, end))
  }

  /** Subtraces counts the branches, everywhere. */
  predicate Counted(t: Tree)
    decreases t, 0
  {
    |t.kids| == t.head.subtraces && KidsCounted(t.kids)
  }

  predicate KidsCounted(kids: seq<Kid>)
    decreases kids, 0
  {
    forall k :: k in kids ==> assert k.tree < k; Counted(k.tree)
  }

  lemma {:induction false} EmitKidsCons(kids: seq<Kid>, address: seq<nat>)
    requires kids != []
    ensures EmitKids(kids, address)
         == Emit(kids[0].tree, address + [kids[0].number]) + EmitKids(kids[1..], address)
  {
    assert kids == [kids[0]] + kids[1..];
    EmitKidsConcat([kids[0]], kids[1..], address);
    EmitKidsSnoc([], kids[0], address);
    assert [] + [kids[0]] == [kids[0]];
  }

  /** Parsing undoes emission, whatever follows. */
  lemma {:induction false} ParseEmit(t: Tree, address: seq<nat>, rest: seq<FlatFrame>)
    requires Counted(t)
    ensures Parse(Emit(t, address) + rest) == Some((ShapeOf(t), rest))
    decreases t, 0
  {
    ParseEmitKids(t.kids, address, rest);
    assert (Emit(t, address) + rest)[1..] == EmitKids(t.kids, address) + rest;
  }

  lemma {:induction false} ParseEmitKids(kids: seq<Kid>, address: seq<nat>, rest: seq<FlatFrame>)
    requires KidsCounted(kids)
    ensures ParseAll(EmitKids(kids, address) + rest, |kids|) == Some((ShapesOf(kids), rest))
    decreases kids, 0
  {
    if kids == [] {
      assert EmitKids(kids, address) + rest == rest;
    } else {
      var first, others := kids[0], EmitKids(kids[1..], address);
      assert first in kids && first.tree < first;
      EmitKidsCons(kids, address);
      assert EmitKids(kids, address) + rest == Emit(first.tree, address + [first.number]) + (others + rest);
      ParseEmit(first.tree, address + [first.number], others + rest);
      ParseEmitKids(kids[1..], address, rest);
    }
  }

  lemma {:induction false} TraceCounted(f: CallFrame)
    ensures Counted(TreeOf(f))
    decreases f, 1
  {
    var jps, n := f.joinPoints, |f.calls|;
    var pre := PreKids(jps, |jps|);
    var mid, post := CallKids(f.calls, n, |pre|), PostKids(jps, |jps|, n);
    NumbersRightIff(f);
    KidsAtPositions(jps, |jps|, n);
    CallKidsExact(f.calls, n, |pre|);
    forall k | k in TreeOf(f).kids ensures Counted(k.tree) {
      assert k in pre || k in mid || k in post;
      if k in mid {
        var i :| 0 <= i < n && mid[i] == k;
        TraceCounted(f.calls[i]);
      } else if k in pre {
        var i :| 0 <= i < |pre| && pre[i] == k;
        AspectCounted(jps[Positions(jps, |jps|, true)[i]]);
      } else {
        var i :| 0 <= i < |post| && post[i] == k;
        AspectCounted(jps[Positions(jps, |jps|, false)[i]]);
      }
    }
  }

  lemma {:induction false} AspectCounted(j: AspectFrame)
    ensures Counted(AspectTree(j))
    decreases j, 1
  {
    CallKidsExact(j.calls, |j.calls|, 0);
    var kids := AspectTree(j).kids;
    forall k | k in kids ensures Counted(k.tree) {
      var i :| 0 <= i < |kids| && kids[i] == k;
      TraceCounted(j.calls[i]);
    }
  }

  // ---- what is read back, against the trace itself

  /** s has the frames of f: kind, error and result of each, the pre-call join points first, then the calls, then the
      other join points. */
  ghost predicate Shows(s: Shape, f: CallFrame)
    decreases f
  {
    var n := |f.joinPoints|;
    var p, q := Positions(f.joinPoints, n, true), Positions(f.joinPoints, n, false);
    && HeadShows(s.head, f) && |s.kids| == |p| + |f.calls| + |q|
    && (forall i :: 0 <= i < |p| ==> p[i] < n && AspectShows(s.kids[i], f.joinPoints[p[i]]))
    && (forall i :: 0 <= i < |f.calls| ==> Shows(s.kids[|p| + i], f.calls[i]))
    && (forall i :: 0 <= i < |q| ==> q[i] < n && AspectShows(s.kids[|p| + |f.calls| + i], f.joinPoints[q[i]]))
  }

  ghost predicate AspectShows(s: Shape, j: AspectFrame)
    decreases j
  {
    && AspectHeadShows(s.head, j) && |s.kids| == |j.calls|
    && forall i :: 0 <= i < |j.calls| ==> Shows(s.kids[i], j.calls[i])
  }

  lemma {:induction false} ShapesAt(kids: seq<Kid>, i: nat)
    requires i < |kids|
    ensures ShapesOf(kids)[i] == ShapeOf(kids[i].tree)
    decreases i
  {
    if i > 0 {
      ShapesAt(kids[1..], i - 1);
    }
  }

  lemma {:induction false} TreeShows(f: CallFrame)
    ensures Shows(ShapeOf(TreeOf(f)), f)
    decreases f
  {
    hide Shows, AspectShows, TreeOf, AspectTree, ShapeOf, ShapesOf, PreKids, CallKids, PostKids, Positions, HeadShows;
    var jps, n, m := f.joinPoints, |f.joinPoints|, |f.calls|;
    var p, q := Positions(jps, n, true), Positions(jps, n, false);
    KidAt(f, 0);
    KidsParts(f);
    var kids := TreeOf(f).kids;
    forall i | 0 <= i < |p| ensures p[i] < n && AspectShows(ShapesOf(kids)[i], jps[p[i]]) {
      KidAt(f, i);
      ShapesAt(kids, i);
      AspectTreeShows(jps[p[i]]);
    }
    forall i | 0 <= i < m ensures Shows(ShapesOf(kids)[|p| + i], f.calls[i]) {
      KidAt(f, i);
      ShapesAt(kids, |p| + i);
      TreeShows(f.calls[i]);
    }
    forall i | 0 <= i < |q| ensures q[i] < n && AspectShows(ShapesOf(kids)[|p| + m + i], jps[q[i]]) {
      KidAt(f, i);
      ShapesAt(kids, |p| + m + i);
      AspectTreeShows(jps[q[i]]);
    }
    ShownBy(f, ShapeOf(TreeOf(f)));
  }

  /** The branches of a frame, in order of emission. */
  lemma KidAt(f: CallFrame, i: nat)
    ensures var n, kids := |f.joinPoints|, TreeOf(f).kids;
      var p, q := Positions(f.joinPoints, n, true), Positions(f.joinPoints, n, false);
      && |kids| == |p| + |f.calls| + |q|
      && (i < |p| ==> p[i] < n && kids[i].tree == AspectTree(f.joinPoints[p[i]]))
      && (i < |f.calls| ==> kids[|p| + i].tree == TreeOf(f.calls[i]))
      && (i < |q| ==> q[i] < n && kids[|p| + |f.calls| + i].tree == AspectTree(f.joinPoints[q[i]]))
  {
    hide TreeOf, AspectTree, PreKids, CallKids, PostKids, Positions, HeadShows;
    var jps, m := f.joinPoints, |f.calls|;
    var pre := PreKids(jps, |jps|);
    KidsAtPositions(jps, |jps|, m);
    CallKidsExact(f.calls, m, |pre|);
    KidsParts(f);
    PartAt(pre, CallKids(f.calls, m, |pre|), PostKids(jps, |jps|, m), i);
  }

  lemma PartAt(a: seq<Kid>, b: seq<Kid>, c: seq<Kid>, i: nat)
    ensures i < |a| ==> (a + b + c)[i] == a[i]
    ensures i < |b| ==> (a + b + c)[|a| + i] == b[i]
    ensures i < |c| ==> (a + b + c)[|a| + |b| + i] == c[i]
  {
  }

  lemma KidsParts(f: CallFrame)
    ensures HeadShows(TreeOf(f).head, f) && ShapeOf(TreeOf(f)) == Shape(TreeOf(f).head, ShapesOf(TreeOf(f).kids))
    ensures var n, m, pre := |f.joinPoints|, |f.calls|, PreKids(f.joinPoints, |f.joinPoints|);
      TreeOf(f).kids == pre + CallKids(f.calls, m, |pre|) + PostKids(f.joinPoints, n, m)
  {
  }

  lemma ShownBy(f: CallFrame, s: Shape)
    requires var n := |f.joinPoints|;
      var p, q := Positions(f.joinPoints, n, true), Positions(f.joinPoints, n, false);
      && HeadShows(s.head, f) && |s.kids| == |p| + |f.calls| + |q|
      && (forall i :: 0 <= i < |p| ==> p[i] < n && AspectShows(s.kids[i], f.joinPoints[p[i]]))
      && (forall i :: 0 <= i < |f.calls| ==> Shows(s.kids[|p| + i], f.calls[i]))
      && (forall i :: 0 <= i < |q| ==> q[i] < n && AspectShows(s.kids[|p| + |f.calls| + i], f.joinPoints[q[i]]))
    ensures Shows(s, f)
  {
  }

  lemma {:induction false} AspectTreeShows(j: AspectFrame)
    ensures AspectShows(ShapeOf(AspectTree(j)), j)
    decreases j
  {
    hide Shows, TreeOf;
    var kids := AspectTree(j).kids;
    CallKidsExact(j.calls, |j.calls|, 0);
    forall i | 0 <= i < |j.calls| ensures Shows(ShapesOf(kids)[i], j.calls[i]) {
      ShapesAt(kids, i);
      TreeShows(j.calls[i]);
    }
  }

  /** Nothing of a trace is lost in its flat list: read back, it has the shape of the nested trace, frame by frame with
      the kind, the error and the result of that frame. */
  lemma RebuildsTrace(f: CallFrame, address: seq<nat>)
    ensures var r := Parse(Emit(TreeOf(f), address)); r.Some? && r.value.1 == [] && Shows(r.value.0, f)
  {
    hide Shows;
    TraceCounted(f);
    ParseEmit(TreeOf(f), address, []);
    assert Emit(TreeOf(f), address) + [] == Emit(TreeOf(f), address);
    TreeShows(f);
  }
}
