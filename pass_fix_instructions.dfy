/** The pass that brackets each function with its stack allocation
    (libs/codegen/sources/AssemblerPassFixInstructions.cpp). */
module FixPass {
  import opened Wrappers
  import Asm

  /** What the Mov handler does is undefined: it dereferences either the
      unset `curr_func` or an end iterator. */
  datatype FixError = MovLookupUndefined

  /** `std::vector::insert` of `x` before index `k`. */
  function InsertAt(s: seq<Asm.Node>, k: nat, x: Asm.Node): (r: seq<Asm.Node>)
    requires k <= |s|
    ensures |r| == |s| + 1 && r[k] == x && r[..k] == s[..k] && r[k + 1..] == s[k..]
  {
    s[..k] + [x] + s[k..]
  }

  /** Index of the first Ret at or after `i`, or `|s|` when there is
      none (the inner loop of the Function visit). */
  function FirstRetFrom(s: seq<Asm.Node>, i: nat): (k: nat)
    requires i <= |s|
    ensures i <= k <= |s| && (k < |s| ==> s[k].Ret?) && forall j :: i <= j < k ==> !s[j].Ret?
    decreases |s| - i
  {
    if i == |s| then i else if s[i].Ret? then i else FirstRetFrom(s, i + 1)
  }

  /** A compound's instructions with a DeAllocate before its first Ret,
      if it has one. */
  function FixCompoundBody(s: seq<Asm.Node>, size: int): (r: seq<Asm.Node>)
    ensures (forall k :: 0 <= k < |s| ==> !s[k].Ret?) ==> r == s
    ensures |s| <= |r| <= |s| + 1
  {
    var k := FirstRetFrom(s, 0);
    if k == |s| then s else InsertAt(s, k, Asm.DeAllocateStack(size))
  }

  /** A node as the backward loop leaves it when it does not stop at it. */
  function FixCompound(n: Asm.Node, size: int): (r: Asm.Node)
    ensures !n.Compound? ==> r == n
    ensures n.Compound? ==> r.Compound? && |n.instructions| <= |r.instructions| <= |n.instructions| + 1
  {
    if n.Compound? then Asm.Compound(FixCompoundBody(n.instructions, size)) else n
  }

  /** The backward loop from index `i` down to 1: a Ret gets a DeAllocate
      before it and ends the loop; a Compound gets its inner fix. */
  function ScanBack(a: seq<Asm.Node>, i: nat, size: int): (r: seq<Asm.Node>)
    requires i < |a|
    ensures |a| <= |r| <= |a| + 1 && r[0] == a[0]
    decreases i
  {
    if i == 0 then a
    else if a[i].Ret? then InsertAt(a, i, Asm.DeAllocateStack(size))
    else ScanBack(a[i := FixCompound(a[i], size)], i - 1, size)
  }

  /** An index that is not a Ret is fixed in place and the loop moves on. */
  lemma ScanBackPast(a: seq<Asm.Node>, i: nat, size: int)
    requires 0 < i < |a| && !a[i].Ret?
    ensures ScanBack(a, i, size) == ScanBack(a[i := FixCompound(a[i], size)], i - 1, size)
  {
  }

  /** The Function visit: an AllocateStack inserted first, then the
      backward loop from the last instruction. */
  function FixFunctionBody(ins: seq<Asm.Node>, size: int): (r: seq<Asm.Node>)
    ensures |ins| + 1 <= |r| <= |ins| + 2 && r[0] == Asm.AllocateStack(size)
  {
    var a := [Asm.AllocateStack(size)] + ins;
    ScanBack(a, |a| - 1, size)
  }

  /** `process_node_`: a Function's own instructions are not visited
      further, and reaching a Mov is undefined. */
  function FixNode(n: Asm.Node, size: int): (r: Result<Asm.Node, FixError>)
    ensures n.Mov? ==> r == Failure(MovLookupUndefined)
    ensures n.Function? ==> r.Success? && r.value.Function? && r.value.name == n.name
    ensures !n.Program? && !n.Compound? && !n.Function? && !n.Mov? ==> r == Success(n)
  {
    match n
    case Program(f) =>
      var g :- FixNode(f, size);
      Success(Asm.Program(g))
    case Compound(ins) =>
      var r :- FixList(ins, size);
      Success(Asm.Compound(r))
    case Function(name, ins) => Success(Asm.Function(name, FixFunctionBody(ins, size)))
    case Mov(_, _) => Failure(MovLookupUndefined)
    case _ => Success(n)
  }

  function FixList(ins: seq<Asm.Node>, size: int): (r: Result<seq<Asm.Node>, FixError>)
    ensures r.Success? ==> |r.value| == |ins|
  {
    if ins == [] then Success([])
    else
      var first :- FixNode(ins[0], size);
      PrependFixed([first], FixList(ins[1..], size))
  }

  function PrependFixed(done: seq<Asm.Node>, r: Result<seq<Asm.Node>, FixError>): Result<seq<Asm.Node>, FixError>
  {
    match r
    case Success(rest) => Success(done + rest)
    case Failure(e) => Failure(e)
  }

  // ---------------------------------------------------------------
  // A closed form of the Function visit

  function FixEach(s: seq<Asm.Node>, size: int): seq<Asm.Node>
  {
    seq(|s|, k requires 0 <= k < |s| => FixCompound(s[k], size))
  }

  /** The largest index in 1..i holding a Ret, or 0. */
  function LastRet(a: seq<Asm.Node>, i: nat): (j: nat)
    requires i < |a|
    ensures j <= i && (j > 0 ==> a[j].Ret?) && forall k :: j < k <= i ==> !a[k].Ret?
    decreases i
  {
    if i == 0 then 0 else if a[i].Ret? then i else LastRet(a, i - 1)
  }

  /** What the backward loop from `i` yields: found Ret `j` gets a
      DeAllocate before it, the entries after it up to `i` get their
      inner fix, and everything else stays. */
  function Scanned(a: seq<Asm.Node>, i: nat, size: int): seq<Asm.Node>
    requires i < |a|
  {
    ScannedAt(a, i, LastRet(a, i), size)
  }

  /** The same, for a given found Ret `j` (0 for none). */
  function ScannedAt(a: seq<Asm.Node>, i: nat, j: nat, size: int): seq<Asm.Node>
    requires j <= i < |a|
  {
    var lo := if j == 0 then 1 else j + 1;
    Head(a, j, size) + FixEach(a[lo..i + 1], size) + a[i + 1..]
  }

  /** The part of the closed form up to the found Ret. */
  function Head(a: seq<Asm.Node>, j: nat, size: int): seq<Asm.Node>
    requires j < |a|
  {
    if j == 0 then a[..1] else a[..j] + [Asm.DeAllocateStack(size), a[j]]
  }

  lemma HeadAgree(a: seq<Asm.Node>, b: seq<Asm.Node>, j: nat, size: int)
    requires j < |a| && j < |b| && forall k :: 0 <= k <= j ==> a[k] == b[k]
    ensures Head(a, j, size) == Head(b, j, size)
  {
    assert a[..j] == b[..j];
    assert a[..1] == b[..1];
  }

  lemma FixEachSnoc(s: seq<Asm.Node>, size: int)
    requires s != []
    ensures FixEach(s, size) == FixEach(s[..|s| - 1], size) + [FixCompound(s[|s| - 1], size)]
  {
  }

  lemma AppendRegroup(h: seq<Asm.Node>, f: seq<Asm.Node>, x: Asm.Node, r: seq<Asm.Node>)
    ensures h + (f + [x]) + r == h + f + ([x] + r)
  {
  }

  /** Replacing entry `i` by its fixed form and scanning below it gives
      the closed form for `i`. */
  lemma ScannedStep(a: seq<Asm.Node>, i: nat, size: int)
    requires 0 < i < |a| && !a[i].Ret?
    ensures Scanned(a[i := FixCompound(a[i], size)], i - 1, size) == Scanned(a, i, size)
  {
    var b := a[i := FixCompound(a[i], size)];
    var j := LastRet(a, i);
    LastRetAgree(a, b, i - 1);
    HeadAgree(a, b, j, size);
    ScannedAtStep(a, b, i, j, size);
  }

  /** The step for a fixed found Ret `j` below `i`. */
  lemma ScannedAtStep(a: seq<Asm.Node>, b: seq<Asm.Node>, i: nat, j: nat, size: int)
    requires j < i < |a| && b == a[i := FixCompound(a[i], size)]
    requires Head(b, j, size) == Head(a, j, size)
    ensures ScannedAt(b, i - 1, j, size) == ScannedAt(a, i, j, size)
  {
    var x := FixCompound(a[i], size);
    var lo := if j == 0 then 1 else j + 1;
    var s := a[lo..i + 1];
    assert b[lo..i] == a[lo..i] == s[..|s| - 1];
    assert b[i..] == [x] + a[i + 1..];
    FixEachSnoc(s, size);
    AppendRegroup(Head(a, j, size), FixEach(a[lo..i], size), x, a[i + 1..]);
  }

  lemma {:induction false} LastRetAgree(a: seq<Asm.Node>, b: seq<Asm.Node>, i: nat)
    requires i < |a| && i < |b| && forall k :: 0 <= k <= i ==> a[k] == b[k]
    ensures LastRet(a, i) == LastRet(b, i)
    decreases i
  {
    if i > 0 {
      assert a[i] == b[i];
      LastRetAgree(a, b, i - 1);
    }
  }

  lemma ScannedAtStart(a: seq<Asm.Node>, size: int)
    requires 0 < |a|
    ensures Scanned(a, 0, size) == a
  {
    assert a[1..1] == [];
    assert a[..1] + a[1..] == a;
  }

  lemma ScannedAtRet(a: seq<Asm.Node>, i: nat, size: int)
    requires 0 < i < |a| && a[i].Ret?
    ensures Scanned(a, i, size) == InsertAt(a, i, Asm.DeAllocateStack(size))
  {
    assert a[i + 1..i + 1] == [];
    assert a[i..] == [a[i]] + a[i + 1..];
  }

  /** The backward loop computes the closed form. */
  lemma {:induction false} ScanBackIsScanned(a: seq<Asm.Node>, i: nat, size: int)
    requires i < |a|
    ensures ScanBack(a, i, size) == Scanned(a, i, size)
    decreases i
  {
    if i == 0 {
      ScannedAtStart(a, size);
    } else if a[i].Ret? {
      ScannedAtRet(a, i, size);
    } else {
      ScanBackIsScanned(a[i := FixCompound(a[i], size)], i - 1, size);
      ScannedStep(a, i, size);
    }
  }

  lemma {:induction false} LastRetNone(a: seq<Asm.Node>, i: nat)
    requires i < |a| && forall k :: 1 <= k <= i ==> !a[k].Ret?
    ensures LastRet(a, i) == 0
    decreases i
  {
    if i > 0 {
      LastRetNone(a, i - 1);
    }
  }

  lemma {:induction false} LastRetIs(a: seq<Asm.Node>, i: nat, j: nat)
    requires 0 < j <= i < |a| && a[j].Ret? && forall k :: j < k <= i ==> !a[k].Ret?
    ensures LastRet(a, i) == j
    decreases i
  {
    if i > j {
      LastRetIs(a, i - 1, j);
    }
  }

  /** A function without a top-level Ret: AllocateStack first, then
      every instruction with its inner fix. */
  lemma FixFunctionWithoutRet(ins: seq<Asm.Node>, size: int)
    requires forall k :: 0 <= k < |ins| ==> !ins[k].Ret?
    ensures FixFunctionBody(ins, size) == [Asm.AllocateStack(size)] + FixEach(ins, size)
  {
    var a := [Asm.AllocateStack(size)] + ins;
    ScanBackIsScanned(a, |ins|, size);
    forall k | 1 <= k <= |ins| ensures !a[k].Ret? {
      assert a[k] == ins[k - 1];
    }
    LastRetNone(a, |ins|);
    ScannedWithoutRet(Asm.AllocateStack(size), ins, size);
  }

  lemma ScannedWithoutRet(x: Asm.Node, ins: seq<Asm.Node>, size: int)
    ensures ScannedAt([x] + ins, |ins|, 0, size) == [x] + FixEach(ins, size)
  {
    var a := [x] + ins;
    assert a[..1] == [x];
    assert a[1..|ins| + 1] == ins;
    assert a[|ins| + 1..] == [];
  }

  /** A function whose last top-level Ret is instruction `j`:
      AllocateStack first, a DeAllocateStack right before that Ret, the
      inner fix on every instruction after it, and nothing else
      changed. */
  lemma FixFunctionWithRet(ins: seq<Asm.Node>, j: nat, size: int)
    requires j < |ins| && ins[j].Ret? && forall k :: j < k < |ins| ==> !ins[k].Ret?
    ensures FixFunctionBody(ins, size) ==
      [Asm.AllocateStack(size)] + ins[..j] + [Asm.DeAllocateStack(size), ins[j]] + FixEach(ins[j + 1..], size)
  {
    var a := [Asm.AllocateStack(size)] + ins;
    ScanBackIsScanned(a, |ins|, size);
    LastRetAfterAllocate(Asm.AllocateStack(size), ins, j);
    ScannedAfterAllocate(Asm.AllocateStack(size), ins, j, size);
  }

  lemma LastRetAfterAllocate(x: Asm.Node, ins: seq<Asm.Node>, j: nat)
    requires j < |ins| && ins[j].Ret? && forall k :: j < k < |ins| ==> !ins[k].Ret?
    ensures LastRet([x] + ins, |ins|) == j + 1
  {
    var a := [x] + ins;
    assert a[j + 1] == ins[j];
    forall k | j + 1 < k <= |ins| ensures !a[k].Ret? {
      assert a[k] == ins[k - 1];
    }
    LastRetIs(a, |ins|, j + 1);
  }

  lemma ScannedAfterAllocate(x: Asm.Node, ins: seq<Asm.Node>, j: nat, size: int)
    requires j < |ins|
    ensures ScannedAt([x] + ins, |ins|, j + 1, size) ==
      [x] + ins[..j] + [Asm.DeAllocateStack(size), ins[j]] + FixEach(ins[j + 1..], size)
  {
    var a := [x] + ins;
    var d := Asm.DeAllocateStack(size);
    assert Head(a, j + 1, size) == a[..j + 1] + [d, a[j + 1]];
    assert a[..j + 1] == [x] + ins[..j];
    assert a[j + 1] == ins[j];
    assert a[j + 2..|ins| + 1] == ins[j + 1..];
    assert a[|ins| + 1..] == [];
    var f := FixEach(ins[j + 1..], size);
    assert ScannedAt(a, |ins|, j + 1, size) == ([x] + ins[..j] + [d, ins[j]]) + f + [];
  }

  // ---------------------------------------------------------------
  // Undoing the Function visit

  predicate IsStackOp(n: Asm.Node)
  {
    n.AllocateStack? || n.DeAllocateStack?
  }

  /** No stack instruction at the top level or inside a top-level
      compound. */
  predicate StackFree(s: seq<Asm.Node>)
  {
    forall k :: 0 <= k < |s| ==> !IsStackOp(s[k]) && (s[k].Compound? ==> NoStackOps(s[k].instructions))
  }

  predicate NoStackOps(s: seq<Asm.Node>)
  {
    forall m :: 0 <= m < |s| ==> !IsStackOp(s[m])
  }

  function DropStackOps(s: seq<Asm.Node>): seq<Asm.Node>
  {
    if s == [] then [] else (if IsStackOp(s[0]) then [] else [s[0]]) + DropStackOps(s[1..])
  }

  function UnfixNode(n: Asm.Node): Asm.Node
  {
    if n.Compound? then Asm.Compound(DropStackOps(n.instructions)) else n
  }

  /** Stack instructions dropped at the top level and inside top-level
      compounds. */
  function Unfix(s: seq<Asm.Node>): seq<Asm.Node>
  {
    if s == [] then [] else (if IsStackOp(s[0]) then [] else [UnfixNode(s[0])]) + Unfix(s[1..])
  }

  lemma {:induction false} DropAppend(x: seq<Asm.Node>, y: seq<Asm.Node>)
    ensures DropStackOps(x + y) == DropStackOps(x) + DropStackOps(y)
    decreases |x|
  {
    if x != [] {
      assert (x + y)[1..] == x[1..] + y;
      DropAppend(x[1..], y);
    } else {
      assert x + y == y;
    }
  }

  lemma {:induction false} DropNothing(s: seq<Asm.Node>)
    requires NoStackOps(s)
    ensures DropStackOps(s) == s
    decreases |s|
  {
    if s != [] {
      DropNothing(s[1..]);
    }
  }

  lemma {:induction false} UnfixAppend(x: seq<Asm.Node>, y: seq<Asm.Node>)
    ensures Unfix(x + y) == Unfix(x) + Unfix(y)
    decreases |x|
  {
    if x != [] {
      assert (x + y)[1..] == x[1..] + y;
      UnfixAppend(x[1..], y);
    } else {
      assert x + y == y;
    }
  }

  lemma {:induction false} UnfixNothing(s: seq<Asm.Node>)
    requires StackFree(s)
    ensures Unfix(s) == s
    decreases |s|
  {
    if s != [] {
      StackFreeTail(s);
      if s[0].Compound? {
        DropNothing(s[0].instructions);
      }
      UnfixNothing(s[1..]);
    }
  }

  lemma NoStackOpsSplit(s: seq<Asm.Node>, k: nat)
    requires NoStackOps(s) && k <= |s|
    ensures NoStackOps(s[..k]) && NoStackOps(s[k..])
  {
    forall m | 0 <= m < k ensures !IsStackOp(s[..k][m]) {
      assert s[..k][m] == s[m];
    }
    forall m | 0 <= m < |s| - k ensures !IsStackOp(s[k..][m]) {
      assert s[k..][m] == s[k + m];
    }
  }

  /** The inner fix is undone by dropping the DeAllocateStack again. */
  lemma DropFixCompound(s: seq<Asm.Node>, size: int)
    requires NoStackOps(s)
    ensures DropStackOps(FixCompoundBody(s, size)) == s
  {
    var k := FirstRetFrom(s, 0);
    if k < |s| {
      DropInsertedAt(s, k, Asm.DeAllocateStack(size));
    } else {
      DropNothing(s);
    }
  }

  /** A stack instruction inserted into stack-free instructions is
      dropped again. */
  lemma DropInsertedAt(s: seq<Asm.Node>, k: nat, d: Asm.Node)
    requires NoStackOps(s) && k <= |s| && IsStackOp(d)
    ensures DropStackOps(InsertAt(s, k, d)) == s
  {
    NoStackOpsSplit(s, k);
    DropInserted(s[..k], d, s[k..]);
    assert s[..k] + s[k..] == s;
  }

  lemma DropInserted(p: seq<Asm.Node>, d: Asm.Node, q: seq<Asm.Node>)
    requires NoStackOps(p) && NoStackOps(q) && IsStackOp(d)
    ensures DropStackOps(p + [d] + q) == p + q
  {
    var pd := p + [d];
    DropAppend(pd, q);
    DropAppend(p, [d]);
    DropNothing(p);
    DropNothing(q);
    DropSingle(d);
  }

  lemma DropSingle(d: Asm.Node)
    requires IsStackOp(d)
    ensures DropStackOps([d]) == []
  {
    assert [d][1..] == [];
  }

  lemma StackFreeSplit(s: seq<Asm.Node>, k: nat)
    requires StackFree(s) && k <= |s|
    ensures StackFree(s[..k]) && StackFree(s[k..])
  {
    forall m | 0 <= m < k ensures s[..k][m] == s[m] {
    }
    forall m | 0 <= m < |s| - k ensures s[k..][m] == s[k + m] {
    }
  }

  lemma StackFreeTail(s: seq<Asm.Node>)
    requires StackFree(s) && s != []
    ensures StackFree(s[1..]) && !IsStackOp(s[0]) && (s[0].Compound? ==> NoStackOps(s[0].instructions))
  {
    forall k | 0 <= k < |s| - 1 ensures !IsStackOp(s[1..][k]) && (s[1..][k].Compound? ==> NoStackOps(s[1..][k].instructions)) {
      assert s[1..][k] == s[k + 1];
    }
  }

  lemma FixEachTail(s: seq<Asm.Node>, size: int)
    requires s != []
    ensures FixEach(s, size) == [FixCompound(s[0], size)] + FixEach(s[1..], size)
  {
    assert FixEach(s, size)[1..] == FixEach(s[1..], size);
  }

  lemma {:induction false} UnfixFixEach(s: seq<Asm.Node>, size: int)
    requires StackFree(s)
    ensures Unfix(FixEach(s, size)) == s
    decreases |s|
  {
    if s != [] {
      var f := FixEach(s, size);
      FixEachTail(s, size);
      StackFreeTail(s);
      if s[0].Compound? {
        DropFixCompound(s[0].instructions, size);
      }
      UnfixFixEach(s[1..], size);
      assert f[1..] == FixEach(s[1..], size);
      assert Unfix(f) == [s[0]] + s[1..];
    }
  }

  /** Dropping the stack instructions again gives back the function body
      the visit started from. */
  lemma UnfixFixFunction(ins: seq<Asm.Node>, size: int)
    requires StackFree(ins)
    ensures Unfix(FixFunctionBody(ins, size)) == ins
  {
    var x := Asm.AllocateStack(size);
    var a := [x] + ins;
    var l := LastRet(a, |ins|);
    assert Unfix([x]) == [];
    if l == 0 {
      forall k | 0 <= k < |ins| ensures !ins[k].Ret? {
        assert a[k + 1] == ins[k];
      }
      FixFunctionWithoutRet(ins, size);
      UnfixAppend([x], FixEach(ins, size));
      UnfixFixEach(ins, size);
    } else {
      var j := l - 1;
      assert a[l] == ins[j];
      forall k | j < k < |ins| ensures !ins[k].Ret? {
        assert a[k + 1] == ins[k];
      }
      FixFunctionWithRet(ins, j, size);
      UnfixWithRet(ins, j, size);
    }
  }

  lemma UnfixWithRet(ins: seq<Asm.Node>, j: nat, size: int)
    requires StackFree(ins) && j < |ins| && ins[j].Ret?
    ensures Unfix([Asm.AllocateStack(size)] + ins[..j] + [Asm.DeAllocateStack(size), ins[j]] + FixEach(ins[j + 1..], size)) == ins
  {
    var x := Asm.AllocateStack(size);
    var m := [Asm.DeAllocateStack(size), ins[j]];
    UnfixAppend([x] + ins[..j] + m, FixEach(ins[j + 1..], size));
    UnfixAppend([x] + ins[..j], m);
    UnfixAllocated(ins, j, size);
    UnfixRetPair(ins[j], size);
    StackFreeSplit(ins, j + 1);
    UnfixFixEach(ins[j + 1..], size);
    assert ins[..j] + [ins[j]] + ins[j + 1..] == ins;
  }

  /** The inserted AllocateStack in front of untouched instructions. */
  lemma UnfixAllocated(ins: seq<Asm.Node>, j: nat, size: int)
    requires StackFree(ins) && j <= |ins|
    ensures Unfix([Asm.AllocateStack(size)] + ins[..j]) == ins[..j]
  {
    UnfixAppend([Asm.AllocateStack(size)], ins[..j]);
    assert Unfix([Asm.AllocateStack(size)]) == [];
    StackFreeSplit(ins, j);
    UnfixNothing(ins[..j]);
  }

  /** The inserted DeAllocateStack in front of a Ret. */
  lemma UnfixRetPair(r: Asm.Node, size: int)
    requires r.Ret?
    ensures Unfix([Asm.DeAllocateStack(size), r]) == [r]
  {
    assert [Asm.DeAllocateStack(size), r][1..] == [r];
    assert Unfix([r]) == [r];
  }

  // ---------------------------------------------------------------
  // The pass object

  /** `AssemblerPassFixInstructions`: the instruction list and the frame
      size from the pseudo-register pass. */
  class FixInstructionsPass {
    var instructions: seq<Asm.Node>
    const stackSize: int

    constructor(instructions: seq<Asm.Node>, stackSize: int)
      ensures this.instructions == instructions && this.stackSize == stackSize
    {
      this.instructions := instructions;
      this.stackSize := stackSize;
    }

    /** `process`: every top-level node in turn. A fault means the
        source's behaviour is undefined, so nothing is said of the list
        then. */
    method Process() returns (r: Result<seq<Asm.Node>, FixError>)
      modifies this
      ensures r == FixList(old(instructions), stackSize)
      ensures r.Success? ==> instructions == r.value
    {
      r := ProcessList(instructions);
      if r.Success? {
        instructions := r.value;
      }
    }

    /** `process_node_`. */
    method ProcessNode(n: Asm.Node) returns (r: Result<Asm.Node, FixError>)
      ensures r == FixNode(n, stackSize)
      decreases n, 1
    {
      match n {
        case Program(f) =>
          var g := ProcessNode(f);
          if g.Failure? {
            return Failure(g.error);
          }
          r := Success(Asm.Program(g.value));
        case Compound(ins) =>
          var fixed := ProcessList(ins);
          if fixed.Failure? {
            return Failure(fixed.error);
          }
          r := Success(Asm.Compound(fixed.value));
        case Function(name, ins) =>
          var body := VisitFunction(ins);
          r := Success(Asm.Function(name, body));
        case Mov(_, _) =>
          r := Failure(MovLookupUndefined);
        case _ =>
          r := Success(n);
      }
    }

    /** The loop of `process` and of the Compound visit. */
    method ProcessList(ins: seq<Asm.Node>) returns (r: Result<seq<Asm.Node>, FixError>)
      ensures r == FixList(ins, stackSize)
      decreases ins, 0
    {
      var done: seq<Asm.Node> := [];
      var i := 0;
      assert ins[0..] == ins;
      PrependNothing(FixList(ins, stackSize));
      while i < |ins|
        invariant 0 <= i <= |ins|
        invariant FixList(ins, stackSize) == PrependFixed(done, FixList(ins[i..], stackSize))
      {
        assert ins[i] in ins;
        var n := ProcessNode(ins[i]);
        FixListAt(ins, i, stackSize);
        if n.Failure? {
          return Failure(n.error);
        }
        PrependFixedTwice(done, n.value, FixList(ins[i + 1..], stackSize));
        done := done + [n.value];
        i := i + 1;
      }
      assert ins[i..] == [] && done + [] == done;
      r := Success(done);
    }

    /** The Function visit: AllocateStack inserted at the front, then the
        backward loop down to index 1. */
    method VisitFunction(ins: seq<Asm.Node>) returns (r: seq<Asm.Node>)
      ensures r == FixFunctionBody(ins, stackSize)
    {
      var a := [Asm.AllocateStack(stackSize)] + ins;
      var i := |a| - 1;
      while i != 0
        invariant 0 <= i < |a|
        invariant ScanBack(a, i, stackSize) == FixFunctionBody(ins, stackSize)
        decreases i
      {
        var b, found := CheckRet(a, i);
        if found {
          return b;
        }
        ScanBackPast(a, i, stackSize);
        a := FixAt(a, i);
        i := i - 1;
      }
      r := a;
    }

    /** A Compound at index `i` gets its inner fix; any other node stays. */
    method FixAt(a: seq<Asm.Node>, i: nat) returns (b: seq<Asm.Node>)
      requires i < |a|
      ensures b == a[i := FixCompound(a[i], stackSize)]
    {
      b := a;
      if a[i].Compound? {
        var inner := FixCompoundInstructions(a[i].instructions);
        b := a[i := Asm.Compound(inner)];
      } else {
        assert a[i := FixCompound(a[i], stackSize)] == a;
      }
    }

    /** The inner loop over a compound's instructions. */
    method FixCompoundInstructions(s: seq<Asm.Node>) returns (t: seq<Asm.Node>)
      ensures t == FixCompoundBody(s, stackSize)
    {
      var k := 0;
      while k < |s|
        invariant 0 <= k <= |s|
        invariant FirstRetFrom(s, 0) == FirstRetFrom(s, k)
      {
        var u, found := CheckRet(s, k);
        if found {
          return u;
        }
        k := k + 1;
      }
      t := s;
    }

    /** `check_ret_node_`: a Ret at index `k` gets a DeAllocateStack
        inserted before it. */
    method CheckRet(s: seq<Asm.Node>, k: nat) returns (t: seq<Asm.Node>, found: bool)
      requires k < |s|
      ensures found <==> s[k].Ret?
      ensures found ==> t == InsertAt(s, k, Asm.DeAllocateStack(stackSize)) && t[k + 1] == s[k]
      ensures !found ==> t == s
    {
      if s[k].Ret? {
        t := s[..k] + [Asm.DeAllocateStack(stackSize)] + s[k..];
        found := true;
      } else {
        t := s;
        found := false;
      }
    }
  }

  lemma FixListAt(ins: seq<Asm.Node>, i: nat, size: int)
    requires i < |ins|
    ensures FixList(ins[i..], size) ==
      match FixNode(ins[i], size)
      case Failure(e) => Failure(e)
      case Success(m) => PrependFixed([m], FixList(ins[i + 1..], size))
  {
    assert ins[i..][1..] == ins[i + 1..];
  }

  lemma PrependNothing(r: Result<seq<Asm.Node>, FixError>)
    ensures PrependFixed([], r) == r
  {
    if r.Success? {
      assert [] + r.value == r.value;
    }
  }

  lemma PrependFixedTwice(done: seq<Asm.Node>, n: Asm.Node, r: Result<seq<Asm.Node>, FixError>)
    ensures PrependFixed(done, PrependFixed([n], r)) == PrependFixed(done + [n], r)
  {
    if r.Success? {
      assert done + ([n] + r.value) == (done + [n]) + r.value;
    }
  }
}
