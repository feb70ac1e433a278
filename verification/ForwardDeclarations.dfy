/** The forward declarations that Printer::printHeader writes: namespace blocks opened and closed around
    the sorted qualified names. */
module ForwardDeclarations {
  import opened Identifier
  import opened Sequences

  // ---------------------------------------------------------------- the output

  const INDENTATION: nat := 2

  datatype Line =
    | Open(indent: int, name: string)
    | Close(indent: int)
    | Declare(indent: int, clas: string)
    | QtBegin(indent: int)
    | QtEnd(indent: int)
    | Blank

  /** The Code object that collects the lines of the header. */
  class Code {
    var indent: int
    var lines: seq<Line>

    constructor ()
      ensures indent == 0 && lines == []
    {
      indent, lines := 0, [];
    }

    method Indent()
      modifies `indent
      ensures indent == old(indent) + INDENTATION
    {
      indent := indent + INDENTATION;
    }

    method Unindent()
      modifies `indent
      ensures indent == if old(indent) < INDENTATION then 0 else old(indent) - INDENTATION
    {
      indent := indent - INDENTATION;
      if indent < 0 { indent := 0; }
    }

    method Add(line: Line)
      modifies `lines
      ensures lines == old(lines) + [line]
    {
      lines := lines + [line];
    }
  }

  // ---------------------------------------------------------------- qualified names

  /** The segments between the "::" of a name, found from the left. */
  function Split(s: string): (r: seq<string>)
    ensures r != []
    decreases |s|
  {
    var i := Find(s, "::", 0);
    if i == NPOS then [s] else [s[..i]] + Split(s[i + 2..])
  }

  function Namespace(name: string): seq<string> { Split(name)[..|Split(name)| - 1] }

  function ClassName(name: string): string { Split(name)[|Split(name)| - 1] }

  /** The qualified form of a path. */
  function Qualifier(path: seq<string>): string {
    if path == [] then "" else path[0] + "::" + Qualifier(path[1..])
  }

  lemma {:induction false} SplitJoins(name: string)
    ensures Qualifier(Namespace(name)) + ClassName(name) == name
    decreases |name|
  {
    var i := Find(name, "::", 0);
    if i != NPOS {
      var rest := name[i + 2..];
      SplitJoins(rest);
      SplitFirst(name);
      assert Namespace(name)[1..] == Namespace(rest);
      Associative(name[..i] + "::", Qualifier(Namespace(rest)), ClassName(rest));
    }
  }

  /** A qualified name is its first segment and a name within it. */
  lemma SplitFirst(name: string)
    requires Find(name, "::", 0) != NPOS
    ensures var i := Find(name, "::", 0);
            && Namespace(name) == [name[..i]] + Namespace(name[i + 2..]) && ClassName(name) == ClassName(name[i + 2..])
            && name == name[..i] + "::" + name[i + 2..]
  {
    var i := Find(name, "::", 0);
    assert name[i..i + 2] == "::";
    assert name == name[..i] + name[i..i + 2] + name[i + 2..];
    InitOfCons(name[..i], Split(name[i + 2..]));
  }

  ghost predicate NoSeparator(s: string) { forall j: nat :: !At(s, "::", j) }

  /** A segment in front of a separator: it holds none and does not add a colon to one. */
  ghost predicate Segment(s: string) { NoSeparator(s) && (s != "" ==> s[|s| - 1] != ':') }

  ghost predicate Segments(path: seq<string>) { forall i :: 0 <= i < |path| ==> Segment(path[i]) }

  /** A name is cut at every separator. */
  lemma {:induction false} SplitSegments(name: string)
    ensures Segments(Namespace(name)) && NoSeparator(ClassName(name))
    decreases |name|
  {
    var i := Find(name, "::", 0);
    if i != NPOS {
      SplitSegments(name[i + 2..]);
      SplitFirst(name);
      FrontSegment(name, i);
    }
  }

  lemma FrontSegment(name: string, i: nat)
    requires At(name, "::", i) && forall j: nat :: j < i ==> !At(name, "::", j)
    ensures Segment(name[..i])
  {
    var seg := name[..i];
    forall j: nat
      ensures !At(seg, "::", j)
    {
      if j + 2 <= i {
        assert seg[j..j + 2] == name[j..j + 2] && !At(name, "::", j);
      }
    }
    if i > 0 {
      assert name[i..i + 2][0] == name[i];
      assert !At(name, "::", i - 1);
      assert name[i - 1..i + 1] == [name[i - 1], name[i]];
    }
  }

  lemma FirstSeparator(seg: string, rest: string)
    requires Segment(seg)
    ensures Find(seg + "::" + rest, "::", 0) == |seg|
  {
    var name := seg + "::" + rest;
    assert name[|seg|..|seg| + 2] == "::";
    assert At(name, "::", |seg|);
    forall j: nat | j < |seg|
      ensures !At(name, "::", j)
    {
      if j + 2 <= |seg| {
        assert name[j..j + 2] == seg[j..j + 2] && !At(seg, "::", j);
      } else {
        assert name[j..j + 2][0] == seg[j];
      }
    }
  }

  /** A path and a class come back from the qualified name. */
  lemma {:induction false} SplitOfJoined(path: seq<string>, clas: string)
    requires Segments(path) && NoSeparator(clas)
    ensures Namespace(Qualifier(path) + clas) == path && ClassName(Qualifier(path) + clas) == clas
  {
    var name := Qualifier(path) + clas;
    if path == [] {
      assert name == clas;
    } else {
      var rest := Qualifier(path[1..]) + clas;
      SplitOfJoined(path[1..], clas);
      Associative(path[0] + "::", Qualifier(path[1..]), clas);
      FirstSeparator(path[0], rest);
      SplitFirst(name);
      assert name[..|path[0]|] == path[0] && name[|path[0]| + 2..] == rest;
      Cons(path);
    }
  }

  lemma InitOfCons<T>(x: T, s: seq<T>)
    requires s != []
    ensures ([x] + s)[..|s|] == [x] + s[..|s| - 1] && ([x] + s)[|s|] == s[|s| - 1]
  {
  }

  function CommonPrefix<T(==)>(a: seq<T>, b: seq<T>): (r: seq<T>)
    ensures r <= a && r <= b && (|r| < |a| && |r| < |b| ==> a[|r|] != b[|r|])
  {
    if a != [] && b != [] && a[0] == b[0] then [a[0]] + CommonPrefix(a[1..], b[1..]) else []
  }

  lemma {:induction false} CommonPrefixUnique<T>(a: seq<T>, b: seq<T>, r: seq<T>)
    requires r <= a && r <= b && (|r| < |a| && |r| < |b| ==> a[|r|] != b[|r|])
    ensures r == CommonPrefix(a, b)
  {
    if r != [] {
      assert r[0] == a[0] && r[0] == b[0];
      CommonPrefixUnique(a[1..], b[1..], r[1..]);
    }
  }

  method CommonLeft(l1: seq<string>, l2: seq<string>) returns (r: seq<string>)
    ensures r == CommonPrefix(l1, l2)
  {
    r := [];
    var i := 0;
    while i < |l1| && i < |l2|
      invariant 0 <= i <= |l1| && i <= |l2|
      invariant r == l1[..i] && r == l2[..i]
    {
      if l1[i] == l2[i] {
        r := r + [l1[i]];
      } else {
        break;
      }
      i := i + 1;
    }
    CommonPrefixUnique(l1, l2, r);
  }

  // ---------------------------------------------------------------- the lines of one name

  /** The blocks of prev from the innermost down to depth are closed. */
  function Closes(base: int, open: nat, depth: nat): seq<Line>
    requires depth <= open
  {
    if open == depth then [] else [Close(base + 2 * (open - 1)), Blank] + Closes(base, open - 1, depth)
  }

  function Opens(base: int, ns: seq<string>, depth: nat): seq<Line>
    requires depth <= |ns|
    decreases |ns| - depth
  {
    if depth == |ns| then [] else [Open(base + 2 * depth, ns[depth])] + Opens(base, ns, depth + 1)
  }

  function Declares(indent: int, clas: string): seq<Line> {
    if clas == "" then []
    else if clas[0] == 'Q' then [QtBegin(indent), Declare(indent, clas), QtEnd(indent)]
    else [Declare(indent, clas)]
  }

  function Step(base: int, prev: seq<string>, name: string): seq<Line> {
    StepTo(base, prev, Namespace(name), ClassName(name))
  }

  /** From the blocks that are open to a class within a namespace. */
  function StepTo(base: int, prev: seq<string>, ns: seq<string>, clas: string): seq<Line> {
    var depth := |CommonPrefix(ns, prev)|;
    Closes(base, |prev|, depth) + Opens(base, ns, depth) + Declares(base + 2 * |ns|, clas)
  }

  function Emitted(base: int, prev: seq<string>, names: seq<string>): seq<Line>
    decreases |names|
  {
    if names == [] then []
    else Step(base, prev, names[0]) + Emitted(base, Namespace(names[0]), names[1..])
  }

  // ---------------------------------------------------------------- the loop

  /** The loop over the sorted names and the empty name put behind them. */
  method PrintForwardDeclarations(out: Code, sorted: seq<string>)
    requires out.indent >= 0
    modifies out
    ensures out.indent == old(out.indent)
    ensures out.lines == old(out.lines) + Emitted(old(out.indent), [], sorted + [""])
  {
    var fwdClasses := sorted + [""];
    var prevNS: seq<string> := [];
    ghost var base, before := out.indent, out.lines;
    var i := 0;
    assert fwdClasses[0..] == fwdClasses;
    while i < |fwdClasses|
      invariant 0 <= i <= |fwdClasses| && (i == |fwdClasses| ==> prevNS == [])
      invariant out.indent == base + 2 * |prevNS|
      invariant out.lines + Emitted(base, prevNS, fwdClasses[i..]) == before + Emitted(base, [], fwdClasses)
    {
      ghost var lines, prev := out.lines, prevNS;
      prevNS := PrintName(out, prevNS, fwdClasses[i], base);
      EmittedStep(base, prev, fwdClasses, i, lines);
      i := i + 1;
    }
    assert out.lines + [] == out.lines;
  }

  lemma EmittedStep(base: int, prev: seq<string>, names: seq<string>, i: nat, lines: seq<Line>)
    requires i < |names|
    ensures lines + Emitted(base, prev, names[i..])
         == lines + Step(base, prev, names[i]) + Emitted(base, Namespace(names[i]), names[i + 1..])
  {
    Advance(names, i);
    Associative(lines, Step(base, prev, names[i]), Emitted(base, Namespace(names[i]), names[i + 1..]));
  }

  lemma RegroupedTwice<T>(a: seq<T>, b: seq<T>, c: seq<T>, d: seq<T>)
    ensures a + (b + c + d) == a + b + c + d
  {
  }

  method PrintName(out: Code, prevNS: seq<string>, fwd: string, ghost base: int) returns (ns: seq<string>)
    requires base >= 0 && out.indent == base + 2 * |prevNS|
    modifies out
    ensures ns == Namespace(fwd) && out.indent == base + 2 * |ns|
    ensures out.lines == old(out.lines) + Step(base, prevNS, fwd)
  {
    var seg := Split(fwd);
    ns := seg[..|seg| - 1];
    var clas := seg[|seg| - 1];
    PrintSegments(out, prevNS, ns, clas, base);
  }

  method PrintSegments(out: Code, prevNS: seq<string>, ns: seq<string>, clas: string, ghost base: int)
    requires base >= 0 && out.indent == base + 2 * |prevNS|
    modifies out
    ensures out.indent == base + 2 * |ns| && out.lines == old(out.lines) + StepTo(base, prevNS, ns, clas)
  {
    var common := CommonLeft(ns, prevNS);
    ghost var before := out.lines;
    CloseBlocks(out, prevNS, |common|, base);
    OpenBlocks(out, ns, |common|, base);
    DeclareClass(out, clas);
    RegroupedTwice(before, Closes(base, |prevNS|, |common|), Opens(base, ns, |common|), Declares(out.indent, clas));
  }

  method DeclareClass(out: Code, clas: string)
    modifies out
    ensures out.indent == old(out.indent) && out.lines == old(out.lines) + Declares(out.indent, clas)
  {
    if clas != "" {
      var isQtClass := clas[0] == 'Q';
      if isQtClass { out.Add(QtBegin(out.indent)); }
      out.Add(Declare(out.indent, clas));
      if isQtClass { out.Add(QtEnd(out.indent)); }
    }
  }

  method CloseBlocks(out: Code, prevNS: seq<string>, common: nat, ghost base: int)
    requires base >= 0 && common <= |prevNS| && out.indent == base + 2 * |prevNS|
    modifies out
    ensures out.indent == base + 2 * common
    ensures out.lines == old(out.lines) + Closes(base, |prevNS|, common)
  {
    var i := common;
    while i < |prevNS|
      invariant common <= i <= |prevNS|
      invariant out.indent == base + 2 * (|prevNS| - (i - common))
      invariant out.lines == old(out.lines) + Closes(base, |prevNS|, |prevNS| - (i - common))
    {
      ClosesMore(base, |prevNS|, |prevNS| - (i - common) - 1);
      out.Unindent();
      out.Add(Close(out.indent));
      out.Add(Blank);
      i := i + 1;
    }
  }

  lemma {:induction false} ClosesMore(base: int, open: nat, depth: nat)
    requires depth < open
    ensures Closes(base, open, depth) == Closes(base, open, depth + 1) + [Close(base + 2 * depth), Blank]
  {
    if open > depth + 1 {
      ClosesMore(base, open - 1, depth);
    }
  }

  method OpenBlocks(out: Code, ns: seq<string>, common: nat, ghost base: int)
    requires common <= |ns| && out.indent == base + 2 * common
    modifies out
    ensures out.indent == base + 2 * |ns|
    ensures out.lines == old(out.lines) + Opens(base, ns, common)
  {
    var i := 0;
    while i < |ns|
      invariant 0 <= i <= |ns|
      invariant out.indent == base + 2 * (if i < common then common else i)
      invariant out.lines + Opens(base, ns, if i < common then common else i)
             == old(out.lines) + Opens(base, ns, common)
    {
      if i >= common {
        Associative(out.lines, [Open(out.indent, ns[i])], Opens(base, ns, i + 1));
        out.Add(Open(out.indent, ns[i]));
        out.Indent();
      }
      i := i + 1;
    }
  }

  // ---------------------------------------------------------------- well nested

  datatype Declared = Declared(path: seq<string>, clas: string, qt: bool)

  /** A reader of the lines that keeps the open namespaces as a stack. It gets stuck when a block is closed
      that is not open, when the Qt brackets do not match, and when a line is not indented by its depth. */
  datatype Machine =
    | Stuck
    | Machine(stack: seq<string>, qt: bool, declared: seq<Declared>, blocks: seq<seq<string>>)

  function Apply(base: int, m: Machine, line: Line): Machine {
    if m.Stuck? then Stuck
    else
      var indent := base + 2 * |m.stack|;
      match line
      case Open(at, name) =>
        if at == indent && !m.qt
        then m.(stack := m.stack + [name], blocks := m.blocks + [m.stack + [name]]) else Stuck
      case Close(at) =>
        if m.stack != [] && at == indent - 2 && !m.qt then m.(stack := m.stack[..|m.stack| - 1]) else Stuck
      case Declare(at, clas) =>
        if at == indent then m.(declared := m.declared + [Declared(m.stack, clas, m.qt)]) else Stuck
      case QtBegin(at) => if at == indent && !m.qt then m.(qt := true) else Stuck
      case QtEnd(at) => if at == indent && m.qt then m.(qt := false) else Stuck
      case Blank => m
  }

  function Run(base: int, m: Machine, lines: seq<Line>): Machine
    decreases |lines|
  {
    if lines == [] then m else Run(base, Apply(base, m, lines[0]), lines[1..])
  }

  lemma {:induction false} RunConcat(base: int, m: Machine, a: seq<Line>, b: seq<Line>)
    ensures Run(base, m, a + b) == Run(base, Run(base, m, a), b)
    decreases |a|
  {
    if a == [] {
      assert a + b == b;
    } else {
      assert (a + b)[1..] == a[1..] + b;
      RunConcat(base, Apply(base, m, a[0]), a[1..], b);
    }
  }

  lemma {:induction false} RunCloses(base: int, m: Machine, depth: nat)
    requires m.Machine? && !m.qt && depth <= |m.stack|
    ensures Run(base, m, Closes(base, |m.stack|, depth)) == m.(stack := m.stack[..depth])
    decreases |m.stack|
  {
    var open := |m.stack|;
    if open == depth {
      assert m.stack[..depth] == m.stack;
    } else {
      var inner := m.(stack := m.stack[..open - 1]);
      var rest := Closes(base, open - 1, depth);
      RunConcat(base, m, [Close(base + 2 * (open - 1)), Blank], rest);
      RunTwo(base, m, Close(base + 2 * (open - 1)), Blank);
      RunCloses(base, inner, depth);
      assert m.stack[..open - 1][..depth] == m.stack[..depth];
    }
  }

  lemma RunTwo(base: int, m: Machine, a: Line, b: Line)
    ensures Run(base, m, [a, b]) == Apply(base, Apply(base, m, a), b)
  {
    assert [a, b][1..] == [b];
    assert Run(base, Apply(base, m, a), [b]) == Apply(base, Apply(base, m, a), b);
  }

  /** The blocks that are opened on the way to ns from a depth. */
  function NewPaths(ns: seq<string>, depth: nat): seq<seq<string>>
    requires depth <= |ns|
    decreases |ns| - depth
  {
    if depth == |ns| then [] else [ns[..depth + 1]] + NewPaths(ns, depth + 1)
  }

  lemma {:induction false} RunOpens(base: int, m: Machine, ns: seq<string>, depth: nat)
    requires m.Machine? && !m.qt && depth <= |ns| && m.stack == ns[..depth]
    ensures Run(base, m, Opens(base, ns, depth)) == m.(stack := ns, blocks := m.blocks + NewPaths(ns, depth))
    decreases |ns| - depth
  {
    if depth == |ns| {
      assert ns[..depth] == ns && m.blocks + [] == m.blocks;
    } else {
      assert ns[..depth] + [ns[depth]] == ns[..depth + 1];
      var line := Open(base + 2 * depth, ns[depth]);
      var next := m.(stack := ns[..depth + 1], blocks := m.blocks + [ns[..depth + 1]]);
      assert Apply(base, m, line) == next;
      assert ([line] + Opens(base, ns, depth + 1))[1..] == Opens(base, ns, depth + 1);
      RunOpens(base, next, ns, depth + 1);
      Associative(m.blocks, [ns[..depth + 1]], NewPaths(ns, depth + 1));
    }
  }

  function Declaration(name: string): seq<Declared> {
    var clas := ClassName(name);
    if clas == "" then [] else [Declared(Namespace(name), clas, clas[0] == 'Q')]
  }

  lemma RunDeclares(base: int, m: Machine, name: string)
    requires m.Machine? && !m.qt && m.stack == Namespace(name)
    ensures Run(base, m, Declares(base + 2 * |m.stack|, ClassName(name)))
         == m.(declared := m.declared + Declaration(name))
  {
    var clas, indent := ClassName(name), base + 2 * |m.stack|;
    if clas == "" {
      assert m.declared + [] == m.declared;
    } else if clas[0] == 'Q' {
      var all := [QtBegin(indent), Declare(indent, clas), QtEnd(indent)];
      assert all[1..] == [Declare(indent, clas), QtEnd(indent)];
      RunTwo(base, m.(qt := true), Declare(indent, clas), QtEnd(indent));
    } else {
      assert Run(base, m, [Declare(indent, clas)]) == Apply(base, m, Declare(indent, clas));
    }
  }

  lemma RunStep(base: int, m: Machine, name: string)
    requires m.Machine? && !m.qt
    ensures var ns := Namespace(name);
            var depth := |CommonPrefix(ns, m.stack)|;
            Run(base, m, Step(base, m.stack, name)) ==
            Machine(ns, false, m.declared + Declaration(name), m.blocks + NewPaths(ns, depth))
  {
    var ns := Namespace(name);
    var depth := |CommonPrefix(ns, m.stack)|;
    var closes, opens := Closes(base, |m.stack|, depth), Opens(base, ns, depth);
    RunConcat(base, m, closes + opens, Declares(base + 2 * |ns|, ClassName(name)));
    RunConcat(base, m, closes, opens);
    RunCloses(base, m, depth);
    assert m.stack[..depth] == ns[..depth];
    var inner := m.(stack := m.stack[..depth]);
    RunOpens(base, inner, ns, depth);
    RunDeclares(base, inner.(stack := ns, blocks := m.blocks + NewPaths(ns, depth)), name);
  }

  function Declarations(names: seq<string>): seq<Declared> {
    if names == [] then [] else Declaration(names[0]) + Declarations(names[1..])
  }

  function Opened(prev: seq<string>, names: seq<string>): seq<seq<string>>
    decreases |names|
  {
    if names == [] then []
    else
      var ns := Namespace(names[0]);
      NewPaths(ns, |CommonPrefix(ns, prev)|) + Opened(ns, names[1..])
  }

  lemma {:induction false} RunAll(base: int, m: Machine, names: seq<string>)
    requires m.Machine? && !m.qt
    ensures Run(base, m, Emitted(base, m.stack, names + [""]))
         == Machine([], false, m.declared + Declarations(names), m.blocks + Opened(m.stack, names))
    decreases |names|
  {
    var all := names + [""];
    RunConcat(base, m, Step(base, m.stack, all[0]), Emitted(base, Namespace(all[0]), all[1..]));
    RunStep(base, m, all[0]);
    if names == [] {
      assert all[1..] == [];
      assert Split("") == [""];
    } else {
      var ns := Namespace(names[0]);
      var paths := NewPaths(ns, |CommonPrefix(ns, m.stack)|);
      assert all[1..] == names[1..] + [""];
      RunAll(base, Machine(ns, false, m.declared + Declaration(names[0]), m.blocks + paths), names[1..]);
      Associative(m.declared, Declaration(names[0]), Declarations(names[1..]));
      Associative(m.blocks, paths, Opened(ns, names[1..]));
    }
  }

  /** The names that have something behind their last "::". */
  function Named(names: seq<string>): seq<string> {
    if names == [] then []
    else if ClassName(names[0]) == "" then Named(names[1..])
    else [names[0]] + Named(names[1..])
  }

  /** The qualified names of the declared classes, read off from the blocks they stand in. */
  function Qualified(ds: seq<Declared>): seq<string> {
    if ds == [] then [] else [Qualifier(ds[0].path) + ds[0].clas] + Qualified(ds[1..])
  }

  lemma {:induction false} DeclaredNames(names: seq<string>)
    ensures Qualified(Declarations(names)) == Named(names)
  {
    if names != [] {
      DeclaredNames(names[1..]);
      SplitJoins(names[0]);
      var rest := Declarations(names[1..]);
      if ClassName(names[0]) == "" {
        assert [] + rest == rest;
      } else {
        assert (Declaration(names[0]) + rest)[1..] == rest;
      }
    }
  }

  /** A class with a name, within Qt brackets if it starts with a Q, in blocks for single segments. */
  ghost predicate Sound(d: Declared) {
    && d.clas != "" && (d.qt <==> d.clas[0] == 'Q') && Segments(d.path) && NoSeparator(d.clas)
  }

  lemma {:induction false} DeclarationsSound(names: seq<string>)
    ensures forall i :: 0 <= i < |Declarations(names)| ==> Sound(Declarations(names)[i])
  {
    if names != [] {
      SplitSegments(names[0]);
      DeclarationsSound(names[1..]);
    }
  }

  /** For every list of names the lines are well nested, every block is closed, and the classes are declared
      in the order of the list, each within its own namespace and a Qt class within the Qt brackets. */
  lemma WellNested(base: int, names: seq<string>)
    ensures var m := Run(base, Machine([], false, [], []), Emitted(base, [], names + [""]));
            && m == Machine([], false, Declarations(names), Opened([], names))
            && Qualified(m.declared) == Named(names)
            && forall i :: 0 <= i < |m.declared| ==> Sound(m.declared[i])
  {
    DeclarationsSound(names);
    RunAll(base, Machine([], false, [], []), names);
    assert [] + Declarations(names) == Declarations(names) && [] + Opened([], names) == Opened([], names);
    DeclaredNames(names);
  }

  // ---------------------------------------------------------------- grouped

  /** The order of std::string. */
  predicate Less(a: string, b: string) {
    b != "" && (a == "" || a[0] < b[0] || (a[0] == b[0] && Less(a[1..], b[1..])))
  }

  /** The names as the std::set holds them. */
  predicate StrictlySorted(names: seq<string>) {
    forall i, j :: 0 <= i < j < |names| ==> Less(names[i], names[j])
  }

  /** Names with a common front stand together. */
  lemma {:induction false} Between(front: string, a: string, b: string, c: string)
    requires Less(a, b) && Less(b, c) && front <= a && front <= c
    ensures front <= b
  {
    if front != "" {
      assert a[0] == front[0] && c[0] == front[0];
      Between(front[1..], a[1..], b[1..], c[1..]);
    }
  }

  /** The paths within which a name lies are the ones whose qualified form it starts with. */
  lemma {:induction false} WithinIsPrefix(path: seq<string>, name: string)
    requires path <= Namespace(name)
    ensures Qualifier(path) <= name
    decreases |name|
  {
    if path != [] {
      var i := Find(name, "::", 0);
      var rest := name[i + 2..];
      SplitFirst(name);
      WithinIsPrefix(path[1..], rest);
    }
  }

  lemma {:induction false} PrefixIsWithin(path: seq<string>, name: string, other: string)
    requires path <= Namespace(name) && Qualifier(path) <= other
    ensures path <= Namespace(other)
    decreases |name|
  {
    if path != [] {
      var i := Find(name, "::", 0);
      var rest := name[i + 2..];
      SplitFirst(name);
      assert path[0] == name[..i] && path[1..] <= Namespace(rest);
      var more := FirstSegment(path[0], Qualifier(path[1..]), other);
      SameFirst(name, other, i);
      SplitFirst(other);
      PrefixIsWithin(path[1..], rest, more);
    }
  }

  lemma FirstSegment(segment: string, front: string, name: string) returns (rest: string)
    requires segment + "::" + front <= name
    ensures segment + "::" <= name && rest == name[|segment| + 2..] && front <= rest
    ensures name[..|segment|] == segment
  {
    rest := name[|segment| + 2..];
    var all := segment + "::" + front;
    assert name[..|all|] == all;
    assert name[|segment| + 2..|all|] == all[|segment| + 2..] == front;
    assert name[..|segment|] == all[..|segment|];
  }

  lemma SameFirst(name: string, other: string, i: nat)
    requires i == Find(name, "::", 0) && name[..i] + "::" <= other
    ensures Find(other, "::", 0) == i
  {
    var front := name[..i] + "::";
    assert name[i..i + 2] == "::";
    assert name[..i + 2] == front && other[..i + 2] == front;
    assert At(other, "::", i);
    forall j: nat | j < i
      ensures !At(other, "::", j)
    {
      assert !At(name, "::", j);
      assert name[j..j + 2] == name[..i + 2][j..j + 2] && other[j..j + 2] == other[..i + 2][j..j + 2];
    }
  }

  lemma {:induction false} NewPathsWithin(ns: seq<string>, depth: nat, i: nat)
    requires depth <= |ns| && i < |NewPaths(ns, depth)|
    ensures depth + i < |ns| && NewPaths(ns, depth)[i] == ns[..depth + i + 1]
    decreases i
  {
    if i > 0 {
      NewPathsWithin(ns, depth + 1, i - 1);
    }
  }

  lemma {:induction false} OpenedWithin(prev: seq<string>, names: seq<string>, path: seq<string>) returns (k: nat)
    requires path in Opened(prev, names)
    ensures k < |names| && path <= Namespace(names[k])
    decreases |names|
  {
    var ns := Namespace(names[0]);
    var depth := |CommonPrefix(ns, prev)|;
    if path in NewPaths(ns, depth) {
      var i :| 0 <= i < |NewPaths(ns, depth)| && NewPaths(ns, depth)[i] == path;
      NewPathsWithin(ns, depth, i);
      k := 0;
    } else {
      var j := OpenedWithin(ns, names[1..], path);
      k := j + 1;
    }
  }

  /** A block of the name before is not opened for the next one. */
  lemma NotOpenedNext(path: seq<string>, before: seq<string>, ns: seq<string>)
    requires path <= before
    ensures path !in NewPaths(ns, |CommonPrefix(ns, before)|)
  {
    var depth := |CommonPrefix(ns, before)|;
    forall i | 0 <= i < |NewPaths(ns, depth)|
      ensures NewPaths(ns, depth)[i] != path
    {
      NewPathsWithin(ns, depth, i);
      assert ns[..depth + i + 1][depth] == ns[depth];
    }
  }

  /** A namespace that has been left does not come back in sorted names. */
  lemma LeftBehind(names: seq<string>, path: seq<string>, k: nat)
    requires StrictlySorted(names) && 1 < k < |names|
    requires path <= Namespace(names[0]) && path <= Namespace(names[k])
    ensures path <= Namespace(names[1])
  {
    WithinIsPrefix(path, names[0]);
    WithinIsPrefix(path, names[k]);
    Between(Qualifier(path), names[0], names[1], names[k]);
    PrefixIsWithin(path, names[0], names[1]);
  }

  lemma {:induction false} NotReopened(names: seq<string>, path: seq<string>)
    requires StrictlySorted(names) && names != [] && path <= Namespace(names[0])
    ensures path !in Opened(Namespace(names[0]), names[1..])
    decreases |names|
  {
    if |names| > 1 {
      var ns := Namespace(names[1]);
      assert names[1..][0] == names[1] && names[1..][1..] == names[2..];
      NotOpenedNext(path, Namespace(names[0]), ns);
      if path <= ns {
        NotReopened(names[1..], path);
      } else if path in Opened(ns, names[2..]) {
        var k := OpenedWithin(ns, names[2..], path);
        LeftBehind(names, path, k + 2);
      }
    }
  }

  predicate Distinct<T(==)>(s: seq<T>) { forall i, j :: 0 <= i < j < |s| ==> s[i] != s[j] }

  /** In sorted names, every namespace block is opened once only. */
  lemma {:induction false} OpenedOnce(prev: seq<string>, names: seq<string>)
    requires StrictlySorted(names)
    ensures Distinct(Opened(prev, names))
    decreases |names|
  {
    if names != [] {
      var ns := Namespace(names[0]);
      var depth := |CommonPrefix(ns, prev)|;
      var a, b := NewPaths(ns, depth), Opened(ns, names[1..]);
      OpenedOnce(ns, names[1..]);
      forall i | 0 <= i < |a|
        ensures a[i] !in b && |a[i]| == depth + i + 1
      {
        NewPathsWithin(ns, depth, i);
        NotReopened(names, a[i]);
      }
      assert Opened(prev, names) == a + b;
    }
  }

  /** The grouping that the sorting is for. */
  lemma BlocksGrouped(base: int, names: seq<string>)
    requires StrictlySorted(names)
    ensures var m := Run(base, Machine([], false, [], []), Emitted(base, [], names + [""]));
            m.Machine? && Distinct(m.blocks)
  {
    WellNested(base, names);
    OpenedOnce([], names);
  }
}
