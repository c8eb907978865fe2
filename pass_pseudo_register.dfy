/** The pass that gives every pseudo-register a stack slot
    (libs/codegen/sources/AssemblerPassPseudoRegister.cpp). Only the
    operands of the Mov instructions it reaches through Program,
    Compound and Function nodes are rewritten. */
module PseudoPass {
  import opened Wrappers
  import Asm

  /** The `offsets` list: each pseudo-register name with its offset. */
  type Table = seq<(string, int)>

  /** A value together with the offsets list the pass holds after
      computing it. */
  datatype Allocated<T> = Allocated(value: T, offsets: Table)

  /** The names recorded in a table. */
  function Names(t: Table): set<string>
  {
    set i | 0 <= i < |t| :: t[i].0
  }

  /** The invariant of the offsets list: no name twice, and entry `i` at
      offset `4 * i`. */
  predicate Slotted(t: Table)
  {
    (forall i :: 0 <= i < |t| ==> t[i].1 == 4 * i) &&
    (forall i, j :: 0 <= i < j < |t| ==> t[i].0 != t[j].0)
  }

  /** `t` is a prefix of `u`. */
  predicate Extends(t: Table, u: Table)
  {
    |t| <= |u| && u[..|t|] == t
  }

  /** `std::find_if` on the names, from index `i`. */
  function FindFrom(t: Table, name: string, i: nat): (r: Option<nat>)
    ensures r.Some? ==> i <= r.value < |t| && t[r.value].0 == name &&
                        forall k :: i <= k < r.value ==> t[k].0 != name
    ensures r.None? ==> forall k :: i <= k < |t| ==> t[k].0 != name
    decreases |t| - i
  {
    if i >= |t| then None
    else if t[i].0 == name then Some(i)
    else FindFrom(t, name, i + 1)
  }

  /** The first entry named `name`, if the table records it. */
  function Find(t: Table, name: string): (r: Option<nat>)
    ensures r.None? <==> name !in Names(t)
    ensures r.Some? ==> r.value < |t| && t[r.value].0 == name
  {
    var r := FindFrom(t, name, 0);
    assert r.Some? ==> t[r.value].0 in Names(t);
    r
  }

  /** `get_offset_`: a name seen before keeps its offset; a new name is
      appended four bytes past the last entry, or at 0 in an empty
      list. */
  function Offset(t: Table, name: string): (r: Allocated<int>)
    ensures Extends(t, r.offsets) && |r.offsets| <= |t| + 1
    ensures name in Names(r.offsets)
  {
    if t == [] then
      assert [(name, 0)][0].0 == name;
      Allocated(0, [(name, 0)])
    else match Find(t, name)
      case None =>
        var u := t + [(name, t[|t| - 1].1 + 4)];
        assert u[|t|].0 == name && u[..|t|] == t;
        Allocated(t[|t| - 1].1 + 4, u)
      case Some(i) => Allocated(t[i].1, t)
  }

  /** One Mov operand: a pseudo-register becomes its stack slot. */
  function AllocOperand(n: Asm.Node, t: Table): (r: Allocated<Asm.Node>)
    ensures n.Pseudo? ==> r.value.Stack?
    ensures !n.Pseudo? ==> r == Allocated(n, t)
  {
    if n.Pseudo? then
      var r := Offset(t, n.identifier);
      Allocated(Asm.Stack(r.value), r.offsets)
    else Allocated(n, t)
  }

  /** `process_node_` with the `visit_node_` overloads. */
  function AllocNode(n: Asm.Node, t: Table): (r: Allocated<Asm.Node>)
    ensures !n.Program? && !n.Compound? && !n.Function? && !n.Mov? ==> r == Allocated(n, t)
    ensures n.Function? ==> r.value.Function? && r.value.name == n.name && |r.value.instructions| == |n.instructions|
  {
    match n
    case Program(f) =>
      var r := AllocNode(f, t);
      Allocated(Asm.Program(r.value), r.offsets)
    case Compound(ins) =>
      var r := AllocList(ins, t);
      Allocated(Asm.Compound(r.value), r.offsets)
    case Function(name, ins) =>
      var r := AllocList(ins, t);
      Allocated(Asm.Function(name, r.value), r.offsets)
    case Mov(s, d) =>
      var rs := AllocOperand(s, t);
      var rd := AllocOperand(d, rs.offsets);
      Allocated(Asm.Mov(rs.value, rd.value), rd.offsets)
    case _ => Allocated(n, t)
  }

  function AllocList(ins: seq<Asm.Node>, t: Table): (r: Allocated<seq<Asm.Node>>)
    ensures |r.value| == |ins|
  {
    if ins == [] then Allocated([], t)
    else
      var first := AllocNode(ins[0], t);
      Prefixed([first.value], AllocList(ins[1..], first.offsets))
  }

  function Prefixed(done: seq<Asm.Node>, r: Allocated<seq<Asm.Node>>): Allocated<seq<Asm.Node>>
  {
    Allocated(done + r.value, r.offsets)
  }

  /** The frame size `process` returns for a finished offsets list. */
  function FrameSize(t: Table): (size: int)
    ensures size >= 0 && size % 4 == 0
    ensures size == 0 <==> t == []
  {
    if t == [] then 0 else |t| * 4
  }

  // ---------------------------------------------------------------
  // A reference description of the pass

  /** The pseudo-register names the pass reaches: those of the operands
      of the Mov instructions under Program, Compound and Function
      nodes. */
  function MovNames(n: Asm.Node): set<string>
  {
    match n
    case Program(f) => MovNames(f)
    case Compound(ins) => ListMovNames(ins)
    case Function(_, ins) => ListMovNames(ins)
    case Mov(s, d) => OperandName(s) + OperandName(d)
    case _ => {}
  }

  function ListMovNames(ins: seq<Asm.Node>): set<string>
  {
    if ins == [] then {} else MovNames(ins[0]) + ListMovNames(ins[1..])
  }

  function OperandName(n: Asm.Node): set<string>
  {
    if n.Pseudo? then {n.identifier} else {}
  }

  /** The pseudo-register names the pass meets, in the order it meets
      them: a Mov's source before its destination, lists front to back. */
  function MovNameSeq(n: Asm.Node): seq<string>
  {
    match n
    case Program(f) => MovNameSeq(f)
    case Compound(ins) => ListMovNameSeq(ins)
    case Function(_, ins) => ListMovNameSeq(ins)
    case Mov(s, d) => OperandSeq(s) + OperandSeq(d)
    case _ => []
  }

  function ListMovNameSeq(ins: seq<Asm.Node>): seq<string>
  {
    if ins == [] then [] else MovNameSeq(ins[0]) + ListMovNameSeq(ins[1..])
  }

  function OperandSeq(n: Asm.Node): seq<string>
  {
    if n.Pseudo? then [n.identifier] else []
  }

  /** A name recorded once: a new name goes at the end, four bytes per
      entry before it. */
  function AddName(t: Table, name: string): Table
  {
    if name in Names(t) then t else t + [(name, 4 * |t|)]
  }

  /** The table after meeting `names` in order: each name not yet
      recorded is appended, so the names sit in first-reference order. */
  function AppendNew(t: Table, names: seq<string>): Table
    decreases |names|
  {
    if names == [] then t else AppendNew(AddName(t, names[0]), names[1..])
  }

  /** Every reached Mov operand that names a pseudo-register recorded in
      `t` replaced by its recorded stack slot. */
  function Resolve(n: Asm.Node, t: Table): Asm.Node
  {
    match n
    case Program(f) => Asm.Program(Resolve(f, t))
    case Compound(ins) => Asm.Compound(ResolveList(ins, t))
    case Function(name, ins) => Asm.Function(name, ResolveList(ins, t))
    case Mov(s, d) => Asm.Mov(ResolveOperand(s, t), ResolveOperand(d, t))
    case _ => n
  }

  function ResolveList(ins: seq<Asm.Node>, t: Table): seq<Asm.Node>
  {
    if ins == [] then [] else [Resolve(ins[0], t)] + ResolveList(ins[1..], t)
  }

  function ResolveOperand(n: Asm.Node, t: Table): Asm.Node
  {
    if n.Pseudo? then
      match Find(t, n.identifier)
      case Some(i) => Asm.Stack(t[i].1)
      case None => n
    else n
  }

  // ---------------------------------------------------------------
  // Properties

  /** Once a name is in a table, growing the table does not change where
      it is found. */
  lemma FindExtends(t: Table, u: Table, name: string)
    requires Extends(t, u) && name in Names(t)
    ensures Find(u, name) == Find(t, name)
  {
    var k :| 0 <= k < |t| && t[k].0 == name;
    assert u[k] == t[k];
    var i := Find(t, name).value;
    assert u[i] == t[i];
    forall k | 0 <= k < i ensures u[k].0 != name {
      assert u[k] == t[k];
    }
  }

  /** `get_offset_` keeps the invariant, records the name, and returns
      the name's recorded offset: the old one for a known name, the next
      free slot for a new one. */
  lemma OffsetSlotted(t: Table, name: string)
    requires Slotted(t)
    ensures var r := Offset(t, name);
      Slotted(r.offsets) && Extends(t, r.offsets) &&
      Names(r.offsets) == Names(t) + {name} &&
      (name in Names(t) ==> r.offsets == t) &&
      (name !in Names(t) ==> r.offsets == t + [(name, 4 * |t|)]) &&
      r.offsets == AddName(t, name) &&
      Find(r.offsets, name).Some? && r.value == r.offsets[Find(r.offsets, name).value].1
  {
    var r := Offset(t, name);
    if t != [] && Find(t, name).None? {
      var u := t + [(name, 4 * |t|)];
      assert u[..|t|] == t;
      assert Names(u) == Names(t) + {name} by {
        forall x | x in Names(u) ensures x in Names(t) + {name} {
          var i :| 0 <= i < |u| && u[i].0 == x;
          if i < |t| { assert u[i] == t[i]; }
        }
        forall x | x in Names(t) ensures x in Names(u) {
          var i :| 0 <= i < |t| && t[i].0 == x;
          assert u[i] == t[i];
        }
        assert u[|t|].0 == name;
      }
      assert u[|t|].0 == name;
    } else if t == [] {
      assert r.offsets[0].0 == name;
      assert Names(r.offsets) == {name};
    }
  }

  lemma AllocOperandSlotted(n: Asm.Node, t: Table)
    requires Slotted(t)
    ensures var r := AllocOperand(n, t);
      Slotted(r.offsets) && Extends(t, r.offsets) &&
      Names(r.offsets) == Names(t) + OperandName(n) &&
      r.offsets == AppendNew(t, OperandSeq(n)) &&
      r.value == ResolveOperand(n, r.offsets)
  {
    if n.Pseudo? {
      OffsetSlotted(t, n.identifier);
      assert OperandSeq(n)[1..] == [];
    }
  }

  /** Meeting two runs of names is meeting their concatenation. */
  lemma {:induction false} AppendNewConcat(t: Table, a: seq<string>, b: seq<string>)
    ensures AppendNew(t, a + b) == AppendNew(AppendNew(t, a), b)
    decreases |a|
  {
    if a == [] {
      assert a + b == b;
    } else {
      assert (a + b)[0] == a[0] && (a + b)[1..] == a[1..] + b;
      AppendNewConcat(AddName(t, a[0]), a[1..], b);
    }
  }

  lemma ExtendsTrans(t: Table, u: Table, w: Table)
    requires Extends(t, u) && Extends(u, w)
    ensures Extends(t, w)
  {
    assert w[..|t|] == w[..|u|][..|t|];
  }

  /** Resolving against a bigger table changes nothing once every reached
      name is recorded. */
  lemma {:induction false} ResolveExtends(n: Asm.Node, t: Table, u: Table)
    requires Extends(t, u) && MovNames(n) <= Names(t)
    ensures Resolve(n, u) == Resolve(n, t)
    decreases n, 1
  {
    match n
    case Program(f) => ResolveExtends(f, t, u);
    case Compound(ins) => ResolveListExtends(ins, t, u);
    case Function(_, ins) => ResolveListExtends(ins, t, u);
    case Mov(s, d) =>
      if s.Pseudo? { FindExtends(t, u, s.identifier); }
      if d.Pseudo? { FindExtends(t, u, d.identifier); }
    case _ =>
  }

  lemma {:induction false} ResolveListExtends(ins: seq<Asm.Node>, t: Table, u: Table)
    requires Extends(t, u) && ListMovNames(ins) <= Names(t)
    ensures ResolveList(ins, u) == ResolveList(ins, t)
    decreases ins, 0
  {
    if ins != [] {
      ResolveExtends(ins[0], t, u);
      ResolveListExtends(ins[1..], t, u);
    }
  }

  /** The pass keeps the offsets invariant, only appends to the list,
      records exactly the reached names, and its result is the input with
      every reached name resolved against the final list. */
  lemma {:induction false} AllocNodeSound(n: Asm.Node, t: Table)
    requires Slotted(t)
    ensures var r := AllocNode(n, t);
      Slotted(r.offsets) && Extends(t, r.offsets) &&
      Names(r.offsets) == Names(t) + MovNames(n) &&
      r.offsets == AppendNew(t, MovNameSeq(n)) &&
      r.value == Resolve(n, r.offsets)
    decreases n, 1
  {
    match n
    case Program(f) => AllocNodeSound(f, t);
    case Compound(ins) => AllocListSound(ins, t);
    case Function(_, ins) => AllocListSound(ins, t);
    case Mov(s, d) => AllocMovSound(s, d, t);
    case _ =>
  }

  /** The Mov case of `AllocNodeSound`: the source operand, then the
      destination. */
  lemma AllocMovSound(s: Asm.Node, d: Asm.Node, t: Table)
    requires Slotted(t)
    ensures var r := AllocNode(Asm.Mov(s, d), t);
      Slotted(r.offsets) && Extends(t, r.offsets) &&
      Names(r.offsets) == Names(t) + MovNames(Asm.Mov(s, d)) &&
      r.offsets == AppendNew(t, MovNameSeq(Asm.Mov(s, d))) &&
      r.value == Resolve(Asm.Mov(s, d), r.offsets)
  {
    var rs := AllocOperand(s, t);
    AllocOperandSlotted(s, t);
    var rd := AllocOperand(d, rs.offsets);
    AllocOperandSlotted(d, rs.offsets);
    MovSteps(s, d, t, rs.offsets, rd.offsets, rs.value, rd.value);
  }

  /** The two operand steps of a Mov, combined: the table after both and
      the resolved Mov. */
  lemma MovSteps(s: Asm.Node, d: Asm.Node, t: Table, u: Table, w: Table, vs: Asm.Node, vd: Asm.Node)
    requires Extends(t, u) && Extends(u, w)
    requires Names(u) == Names(t) + OperandName(s) && Names(w) == Names(u) + OperandName(d)
    requires u == AppendNew(t, OperandSeq(s)) && w == AppendNew(u, OperandSeq(d))
    requires vs == ResolveOperand(s, u) && vd == ResolveOperand(d, w)
    ensures Extends(t, w) && Names(w) == Names(t) + MovNames(Asm.Mov(s, d))
    ensures w == AppendNew(t, MovNameSeq(Asm.Mov(s, d)))
    ensures Asm.Mov(vs, vd) == Resolve(Asm.Mov(s, d), w)
  {
    ExtendsTrans(t, u, w);
    AppendNewConcat(t, OperandSeq(s), OperandSeq(d));
    ResolveOperandKept(s, u, w);
  }

  /** An operand already recorded in `u` resolves the same against any
      extension of `u`. */
  lemma ResolveOperandKept(n: Asm.Node, u: Table, w: Table)
    requires Extends(u, w) && OperandName(n) <= Names(u)
    ensures ResolveOperand(n, w) == ResolveOperand(n, u)
  {
    if n.Pseudo? {
      FindExtends(u, w, n.identifier);
    }
  }

  lemma {:induction false} AllocListSound(ins: seq<Asm.Node>, t: Table)
    requires Slotted(t)
    ensures var r := AllocList(ins, t);
      Slotted(r.offsets) && Extends(t, r.offsets) &&
      Names(r.offsets) == Names(t) + ListMovNames(ins) &&
      r.offsets == AppendNew(t, ListMovNameSeq(ins)) &&
      r.value == ResolveList(ins, r.offsets)
    decreases ins, 0
  {
    if ins == [] {
      assert t[..|t|] == t;
    } else {
      var first := AllocNode(ins[0], t);
      AllocNodeSound(ins[0], t);
      AllocListSound(ins[1..], first.offsets);
      var rest := AllocList(ins[1..], first.offsets);
      ExtendsTrans(t, first.offsets, rest.offsets);
      AppendNewConcat(t, MovNameSeq(ins[0]), ListMovNameSeq(ins[1..]));
      ResolveExtends(ins[0], first.offsets, rest.offsets);
    }
  }

  /** After the pass no reached Mov operand is a pseudo-register. */
  lemma {:induction false} ResolveClears(n: Asm.Node, t: Table)
    requires MovNames(n) <= Names(t)
    ensures MovNames(Resolve(n, t)) == {}
    decreases n, 1
  {
    match n
    case Program(f) => ResolveClears(f, t);
    case Compound(ins) => ResolveListClears(ins, t);
    case Function(_, ins) => ResolveListClears(ins, t);
    case Mov(s, d) =>
      if s.Pseudo? { FoundIfNamed(t, s.identifier); }
      if d.Pseudo? { FoundIfNamed(t, d.identifier); }
    case _ =>
  }

  lemma {:induction false} ResolveListClears(ins: seq<Asm.Node>, t: Table)
    requires ListMovNames(ins) <= Names(t)
    ensures ListMovNames(ResolveList(ins, t)) == {}
    decreases ins, 0
  {
    if ins != [] {
      ResolveClears(ins[0], t);
      ResolveListClears(ins[1..], t);
      assert ResolveList(ins, t)[1..] == ResolveList(ins[1..], t);
    }
  }

  lemma FoundIfNamed(t: Table, name: string)
    requires name in Names(t)
    ensures Find(t, name).Some?
  {
    var k :| 0 <= k < |t| && t[k].0 == name;
  }

  /** A list without repeated names has as many names as entries. */
  lemma {:induction false} DistinctNamesCount(t: Table)
    requires forall i, j :: 0 <= i < j < |t| ==> t[i].0 != t[j].0
    ensures |Names(t)| == |t|
    decreases |t|
  {
    if t != [] {
      var p := t[..|t| - 1];
      DistinctNamesCount(p);
      assert Names(t) == Names(p) + {t[|t| - 1].0} by {
        forall x | x in Names(t) ensures x in Names(p) + {t[|t| - 1].0} {
          var i :| 0 <= i < |t| && t[i].0 == x;
          if i < |t| - 1 { assert p[i] == t[i]; }
        }
        forall x | x in Names(p) ensures x in Names(t) {
          var i :| 0 <= i < |p| && p[i].0 == x;
          assert p[i] == t[i];
        }
      }
      forall i | 0 <= i < |p| ensures p[i].0 != t[|t| - 1].0 {
        assert p[i] == t[i];
      }
    }
  }

  /** The frame size of a whole pass from an empty list: four bytes for
      every distinct name it reaches, the reached operands all rewritten,
      and distinct names at distinct offsets. */
  lemma PassFrame(ins: seq<Asm.Node>)
    ensures var r := AllocList(ins, []);
      r.offsets == AppendNew([], ListMovNameSeq(ins)) &&
      FrameSize(r.offsets) == 4 * |ListMovNames(ins)| &&
      ListMovNames(r.value) == {} &&
      forall i, j :: 0 <= i < |r.offsets| && 0 <= j < |r.offsets| && r.offsets[i].0 != r.offsets[j].0 ==>
        r.offsets[i].1 != r.offsets[j].1
  {
    var r := AllocList(ins, []);
    AllocListSound(ins, []);
    assert Names([]) == {};
    SlottedFrame(r.offsets);
    ResolveListClears(ins, r.offsets);
  }

  /** A Mov's source is given its slot before its destination. */
  lemma SourceBeforeDestination(a: string, b: string)
    requires a != b
    ensures AllocNode(Asm.Mov(Asm.Pseudo(a), Asm.Pseudo(b)), []).offsets == [(a, 0), (b, 4)]
  {
    AllocNodeSound(Asm.Mov(Asm.Pseudo(a), Asm.Pseudo(b)), []);
    assert Names([]) == {};
    assert Names([(a, 0)]) == {a};
  }

  /** A list keeping the offsets invariant: four bytes of frame per
      name, and distinct names at distinct offsets. */
  lemma SlottedFrame(t: Table)
    requires Slotted(t)
    ensures FrameSize(t) == 4 * |Names(t)|
    ensures forall i, j :: 0 <= i < |t| && 0 <= j < |t| && t[i].0 != t[j].0 ==> t[i].1 != t[j].1
  {
    DistinctNamesCount(t);
  }

  // ---------------------------------------------------------------
  // The pass object

  /** `AssemblerPassPseudoRegister`: the instruction list it rewrites and
      its offsets list. */
  class PseudoRegisterPass {
    var instructions: seq<Asm.Node>
    var offsets: Table

    constructor(instructions: seq<Asm.Node>)
      ensures this.instructions == instructions && offsets == []
    {
      this.instructions := instructions;
      offsets := [];
    }

    /** `process`: every instruction rewritten in place, then the frame
        size. */
    method Process() returns (size: int)
      modifies this
      ensures Allocated(instructions, offsets) == AllocList(old(instructions), old(offsets))
      ensures size == FrameSize(offsets)
    {
      var i := 0;
      assert instructions[..0] == [] && instructions[0..] == instructions;
      PrefixedNothing(AllocList(instructions, offsets));
      while i < |instructions|
        invariant 0 <= i <= |instructions| == |old(instructions)|
        invariant instructions[i..] == old(instructions)[i..]
        invariant AllocList(old(instructions), old(offsets)) == Prefixed(instructions[..i], AllocList(instructions[i..], offsets))
      {
        ghost var before := instructions;
        ghost var t := offsets;
        var n := ProcessNode(instructions[i]);
        AllocListAt(before, i, t);
        PrefixedTwice(before[..i], n, AllocList(before[i + 1..], offsets));
        instructions := instructions[i := n];
        assert instructions[..i + 1] == before[..i] + [n];
        assert instructions[i + 1..] == before[i + 1..];
        i := i + 1;
      }
      assert instructions[..i] == instructions && instructions[i..] == [];
      assert instructions + [] == instructions;
      if |offsets| == 0 {
        return 0;
      }
      return |offsets| * 4;
    }

    /** `process_node_`: a node and the offsets list after it. */
    method ProcessNode(n: Asm.Node) returns (m: Asm.Node)
      modifies this`offsets
      ensures Allocated(m, offsets) == AllocNode(n, old(offsets))
      decreases n, 1
    {
      match n {
        case Program(f) =>
          var f2 := ProcessNode(f);
          m := Asm.Program(f2);
        case Compound(ins) =>
          var ins2 := ProcessList(ins);
          m := Asm.Compound(ins2);
        case Function(name, ins) =>
          var ins2 := ProcessList(ins);
          m := Asm.Function(name, ins2);
        case Mov(s, d) =>
          var src := s;
          var dst := d;
          if s.Pseudo? {
            var offset := GetOffset(s.identifier);
            src := Asm.Stack(offset);
          }
          if d.Pseudo? {
            var offset := GetOffset(d.identifier);
            dst := Asm.Stack(offset);
          }
          m := Asm.Mov(src, dst);
        case _ =>
          m := n;
      }
    }

    /** The loop of the Compound and Function visits. */
    method ProcessList(ins: seq<Asm.Node>) returns (r: seq<Asm.Node>)
      modifies this`offsets
      ensures Allocated(r, offsets) == AllocList(ins, old(offsets))
      decreases ins, 0
    {
      r := [];
      var i := 0;
      assert ins[0..] == ins;
      PrefixedNothing(AllocList(ins, offsets));
      while i < |ins|
        invariant 0 <= i <= |ins|
        invariant AllocList(ins, old(offsets)) == Prefixed(r, AllocList(ins[i..], offsets))
      {
        ghost var t := offsets;
        assert ins[i] in ins;
        var n := ProcessNode(ins[i]);
        AllocListAt(ins, i, t);
        PrefixedTwice(r, n, AllocList(ins[i + 1..], offsets));
        r := r + [n];
        i := i + 1;
      }
      assert ins[i..] == [] && r + [] == r;
    }

    /** `get_offset_`, with the `find_if` loop. */
    method GetOffset(name: string) returns (offset: int)
      modifies this`offsets
      ensures Allocated(offset, offsets) == Offset(old(offsets), name)
    {
      if |offsets| == 0 {
        offsets := offsets + [(name, 0)];
      } else {
        var i := 0;
        while i < |offsets| && offsets[i].0 != name
          invariant 0 <= i <= |offsets|
          invariant Find(offsets, name) == FindFrom(offsets, name, i)
        {
          i := i + 1;
        }
        if i == |offsets| {
          var last := offsets[|offsets| - 1].1;
          offsets := offsets + [(name, last + 4)];
        } else {
          return offsets[i].1;
        }
      }
      offset := offsets[|offsets| - 1].1;
    }
  }

  lemma AllocListAt(ins: seq<Asm.Node>, i: nat, t: Table)
    requires i < |ins|
    ensures var first := AllocNode(ins[i], t);
      AllocList(ins[i..], t) == Prefixed([first.value], AllocList(ins[i + 1..], first.offsets))
  {
    assert ins[i..][1..] == ins[i + 1..];
  }

  lemma PrefixedNothing(r: Allocated<seq<Asm.Node>>)
    ensures Prefixed([], r) == r
  {
    assert [] + r.value == r.value;
  }

  lemma PrefixedTwice(done: seq<Asm.Node>, n: Asm.Node, r: Allocated<seq<Asm.Node>>)
    ensures Prefixed(done, Prefixed([n], r)) == Prefixed(done + [n], r)
  {
    assert done + ([n] + r.value) == (done + [n]) + r.value;
  }
}
