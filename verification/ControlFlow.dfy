/** Structured programs: dataflow states, conditionals and loops arranged in control-flow regions; their runs, the
    events a run performs, and what the events do to the containers. */
module ControlFlow {
  import opened Options

  type Name = string
  type Store = map<Name, int>

  // ---------------------------------------------------------------- programs

  /** An access node of a state; a container may have several. */
  datatype Node = Node(id: nat, data: Name)

  /** A computation of a state: it uses access nodes and writes one. */
  datatype Stmt = Stmt(inputs: seq<Node>, output: Node, op: int)

  /** A condition over containers and symbols. */
  datatype Test = Test(uses: seq<Name>, op: int)

  /** What a run performs: a computation, or a test with the outcome it had. */
  datatype Event = Do(uses: seq<Name>, target: Name, op: int) | Check(uses: seq<Name>, op: int, outcome: bool)

  /** `acts` are the test and the symbol assignments of an interstate edge. */
  datatype Edge = Edge(src: nat, dst: nat, acts: seq<Event>)

  datatype Header = Header(init: seq<Event>, cond: Test, update: seq<Event>)

  /** A region's blocks are numbered by position; `id` tells regions and blocks apart as objects. */
  datatype Region = Region(id: nat, blocks: seq<Block>, edges: seq<Edge>, start: nat)

  /** `cond` is `None` for an else. */
  datatype Branch = Branch(cond: Option<Test>, body: Region)

  /** A loop is the region of its body, under the region's `id`.  `Jump` stands for the blocks without accesses. */
  datatype Block =
    | State(id: nat, stmts: seq<Stmt>)
    | Cond(id: nat, branches: seq<Branch>)
    | Loop(header: Header, body: Region)
    | Jump(id: nat)

  // ---------------------------------------------------------------- runs

  /** How a block is run: a branch taken, or none, or one run of the body per iteration. */
  datatype BlockRun = Plain | Taken(branch: nat, inner: RegionRun) | NoneTaken | Iterations(iters: seq<RegionRun>)

  /** The blocks of a region a run visits, each with the number of the edge taken out of it. */
  datatype RegionRun =
    | Empty
    | Last(block: nat, run: BlockRun)
    | Then(block: nat, run: BlockRun, via: nat, rest: RegionRun)

  ghost predicate Sink(rg: Region, b: nat) {
    forall e :: e in rg.edges ==> e.src != b
  }

  ghost predicate ValidBlock(b: Block, r: BlockRun)
    decreases r, 0
  {
    match b
    case State(_, _) => r.Plain?
    case Jump(_) => r.Plain?
    case Cond(_, branches) =>
      || (r.Taken? && r.branch < |branches| && ValidRegion(branches[r.branch].body, r.inner))
      || (r.NoneTaken? && forall br :: br in branches ==> br.cond.Some?)
    case Loop(_, body) => r.Iterations? && forall i :: 0 <= i < |r.iters| ==> ValidRegion(body, r.iters[i])
  }

  /** From the start block along edges to a block without an edge out. */
  ghost predicate ValidRegion(rg: Region, r: RegionRun)
    decreases r, 1
  {
    if rg.blocks == [] then r.Empty? else !r.Empty? && r.block == rg.start && ValidPath(rg, r)
  }

  ghost predicate ValidPath(rg: Region, r: RegionRun)
    decreases r, 0
  {
    && !r.Empty? && r.block < |rg.blocks| && ValidBlock(rg.blocks[r.block], r.run)
    && (if r.Last? then Sink(rg, r.block)
        else !r.rest.Empty? && ValidVia(rg, r.block, r.via, r.rest.block) && ValidPath(rg, r.rest))
  }

  ghost predicate ValidVia(rg: Region, b: nat, via: nat, next: nat) {
    via < |rg.edges| && rg.edges[via].src == b && rg.edges[via].dst == next
  }

  // ---------------------------------------------------------------- events

  function Names(nodes: seq<Node>): seq<Name> {
    seq(|nodes|, i requires 0 <= i < |nodes| => nodes[i].data)
  }

  function StmtEvent(s: Stmt): Event {
    Do(Names(s.inputs), s.output.data, s.op)
  }

  function StmtEvents(stmts: seq<Stmt>): seq<Event> {
    seq(|stmts|, i requires 0 <= i < |stmts| => StmtEvent(stmts[i]))
  }

  function Asked(t: Test, outcome: bool): Event {
    Check(t.uses, t.op, outcome)
  }

  /** The tests of the branches before the one taken all fail. */
  function Refused(branches: seq<Branch>): seq<Event> {
    if branches == [] then []
    else (if branches[0].cond.Some? then [Asked(branches[0].cond.value, false)] else []) + Refused(branches[1..])
  }

  function Entered(br: Branch): seq<Event> {
    if br.cond.Some? then [Asked(br.cond.value, true)] else []
  }

  ghost function BlockTrace(b: Block, r: BlockRun): seq<Event>
    requires ValidBlock(b, r)
    decreases r, 0
  {
    match b
    case State(_, stmts) => StmtEvents(stmts)
    case Jump(_) => []
    case Cond(_, branches) =>
      if r.Taken? then
        Refused(branches[..r.branch]) + Entered(branches[r.branch]) + RegionTrace(branches[r.branch].body, r.inner)
      else Refused(branches)
    case Loop(h, body) => h.init + LoopTrace(h, body, r.iters) + [Asked(h.cond, false)]
  }

  ghost function LoopTrace(h: Header, body: Region, iters: seq<RegionRun>): seq<Event>
    requires forall i :: 0 <= i < |iters| ==> ValidRegion(body, iters[i])
    decreases iters
  {
    if iters == [] then []
    else [Asked(h.cond, true)] + RegionTrace(body, iters[0]) + h.update + LoopTrace(h, body, iters[1..])
  }

  ghost function RegionTrace(rg: Region, r: RegionRun): seq<Event>
    requires ValidRegion(rg, r)
    decreases r, 1
  {
    if rg.blocks == [] then [] else PathTrace(rg, r)
  }

  ghost function PathTrace(rg: Region, r: RegionRun): seq<Event>
    requires ValidPath(rg, r)
    decreases r, 0
  {
    BlockTrace(rg.blocks[r.block], r.run) +
    if r.Last? then [] else rg.edges[r.via].acts + PathTrace(rg, r.rest)
  }

  // ---------------------------------------------------------------- what events do

  /** What computations and tests compute; the results hold for any. */
  datatype Meaning = Meaning(apply: (int, seq<int>) -> int, test: (int, seq<int>) -> bool)

  ghost function Get(s: Store, x: Name): int {
    if x in s then s[x] else 0
  }

  ghost function Values(s: Store, uses: seq<Name>): seq<int> {
    seq(|uses|, i requires 0 <= i < |uses| => Get(s, uses[i]))
  }

  /** Perform the events; `None` when a test does not have the outcome recorded. */
  ghost function Exec(m: Meaning, trace: seq<Event>, s: Store): Option<Store>
    decreases |trace|
  {
    if trace == [] then Some(s)
    else match trace[0]
      case Do(uses, target, op) => Exec(m, trace[1..], s[target := m.apply(op, Values(s, uses))])
      case Check(uses, op, outcome) =>
        if m.test(op, Values(s, uses)) == outcome then Exec(m, trace[1..], s) else None
  }

  lemma {:induction false} ExecConcat(m: Meaning, a: seq<Event>, b: seq<Event>, s: Store)
    ensures Exec(m, a + b, s) == (var r := Exec(m, a, s); if r.None? then None else Exec(m, b, r.value))
    decreases |a|
  {
    if a == [] {
      assert a + b == b;
    } else {
      assert (a + b)[1..] == a[1..] + b;
      match a[0]
      case Do(uses, target, op) => ExecConcat(m, a[1..], b, s[target := m.apply(op, Values(s, uses))]);
      case Check(_, _, _) => ExecConcat(m, a[1..], b, s);
    }
  }

  // ---------------------------------------------------------------- mentions

  predicate Writes(e: Event, x: Name) {
    e.Do? && e.target == x
  }

  ghost predicate Mentions(e: Event, x: Name) {
    x in e.uses || Writes(e, x)
  }

  ghost predicate Silent(trace: seq<Event>, x: Name) {
    forall e :: e in trace ==> !Mentions(e, x)
  }

  // ---------------------------------------------------------------- renaming

  function Swap(x: Name, from: Name, to: Name): Name {
    if x == from then to else x
  }

  function RenameReads(uses: seq<Name>, from: Name, to: Name): seq<Name> {
    seq(|uses|, i requires 0 <= i < |uses| => Swap(uses[i], from, to))
  }

  function RenameNode(n: Node, from: Name, to: Name): Node {
    n.(data := Swap(n.data, from, to))
  }

  function RenameStmt(s: Stmt, from: Name, to: Name): Stmt {
    Stmt(seq(|s.inputs|, i requires 0 <= i < |s.inputs| => RenameNode(s.inputs[i], from, to)),
         RenameNode(s.output, from, to), s.op)
  }

  function RenameCond(cond: Option<Test>, from: Name, to: Name): Option<Test> {
    match cond
    case None => None
    case Some(t) => Some(t.(uses := RenameReads(t.uses, from, to)))
  }

  /** On interstate edges only what is read is renamed: the keys of assignments are symbols. */
  function RenameAct(e: Event, from: Name, to: Name): Event {
    e.(uses := RenameReads(e.uses, from, to))
  }

  function RenameEdge(e: Edge, from: Name, to: Name): Edge {
    e.(acts := seq(|e.acts|, i requires 0 <= i < |e.acts| => RenameAct(e.acts[i], from, to)))
  }

  /** `_rename_in_region`: states, interstate edges and branch conditions, throughout; loop headers stay. */
  function RenameRegion(rg: Region, from: Name, to: Name): Region
    decreases rg
  {
    rg.(blocks := seq(|rg.blocks|, i requires 0 <= i < |rg.blocks| => RenameBlock(rg.blocks[i], from, to)),
        edges := seq(|rg.edges|, i requires 0 <= i < |rg.edges| => RenameEdge(rg.edges[i], from, to)))
  }

  function RenameBlock(b: Block, from: Name, to: Name): Block
    decreases b
  {
    match b
    case State(id, stmts) => State(id, seq(|stmts|, i requires 0 <= i < |stmts| => RenameStmt(stmts[i], from, to)))
    case Cond(id, branches) =>
      Cond(id, seq(|branches|, i requires 0 <= i < |branches| =>
        Branch(RenameCond(branches[i].cond, from, to), RenameRegion(branches[i].body, from, to))))
    case Loop(h, body) => Loop(h, RenameRegion(body, from, to))
    case Jump(_) => b
  }

  /** The events of a run, renamed. */
  ghost function RenameEvent(e: Event, from: Name, to: Name): Event {
    match e
    case Do(uses, target, op) => Do(RenameReads(uses, from, to), Swap(target, from, to), op)
    case Check(uses, op, outcome) => Check(RenameReads(uses, from, to), op, outcome)
  }

  ghost function RenameTrace(trace: seq<Event>, from: Name, to: Name): seq<Event> {
    seq(|trace|, i requires 0 <= i < |trace| => RenameEvent(trace[i], from, to))
  }
}
