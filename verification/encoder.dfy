/** `AllConstraints`: the families in the order the solver adds them, with one literal
    manager threaded through all of them from the empty state.

    `TunnelIdentifying` is called between `SolvedState` and the movement constraints.
    This is the solver's own older copy, not the `Preprocessor` one. It adds no
    clause and allocates no literal, and no family here reads the tunnels it
    collects.  `PlayerHeadOnConstraints` and
    `PlayerCollisionConstraints` are commented out of the sequence, and so are
    `tunnelMacro`, `ObstacleConstraints` and `LearntConstraints`; none of them
    contributes here. */
module Encoder {
  import opened Seqs
  import opened Boards
  import opened Literals
  import opened Preprocessor
  import opened Families
  import opened Placement
  import opened BoxPush

  /** The request clauses added before `BoxPushMovementConstraints`, in order. */
  function Prefix(p: Prep, H: int): seq<seq<Req>>
    requires p.Valid()
  {
    InitState(p) + SolvedState(p, H) + PlayerMovement(p, H)
  }

  /** The request clauses added after `BoxPushMovementConstraints`, in order. */
  function Suffix(p: Prep, H: int): seq<seq<Req>>
    requires p.Valid()
  {
    PlayerSingle(p, H) + BoxSingle(p, H) + BoxCollision(p, H) + BoxAndPlayer(p, H) + Existence(p, H) + Debug(p, H)
  }

  /** Clause `c` is request clause `q` made concrete: one literal per request, each
      the literal of its request in `m`. */
  predicate Realizes(m: Manager, c: Clause, q: seq<Req>)
  {
    |c.lits| == |q| && forall j :: 0 <= j < |q| ==> Denotes(m, c.lits[j], q[j])
  }

  lemma RealizesStable(m: Manager, m': Manager, cs: seq<Clause>, qs: seq<seq<Req>>)
    requires Extends(m, m') && |cs| == |qs|
    requires forall i :: 0 <= i < |qs| ==> Realizes(m, cs[i], qs[i])
    ensures forall i :: 0 <= i < |qs| ==> Realizes(m', cs[i], qs[i])
  {
    forall i, j | 0 <= i < |qs| && 0 <= j < |qs[i]|
      ensures Denotes(m', cs[i].lits[j], qs[i][j])
    {
      assert Realizes(m, cs[i], qs[i]);
      DenotesStable(m, m', cs[i].lits[j], qs[i][j]);
    }
  }

  /** `RealizeAll` in terms of `Realizes`. */
  lemma RealizeAllRealizes(m: Manager, qs: seq<seq<Req>>)
    requires Valid(m)
    ensures var r := RealizeAll(m, qs);
      |r.1| == |qs| && forall i :: 0 <= i < |qs| ==> Realizes(r.0, r.1[i], qs[i])
  {
    var (m', cs) := RealizeAll(m, qs);
    forall i | 0 <= i < |qs|
      ensures Realizes(m', cs[i], qs[i])
    {
    }
  }

  /** The clause list `s` is laid out as `AllConstraints` adds it: first `pre`
      realized clause by clause, then the push clauses of the cells `cells` (as many
      as `PushTotal` counts), then `post` realized clause by clause. */
  predicate Layout(m: Manager, s: seq<Clause>, pre: seq<seq<Req>>, p: Prep, cells: seq<Cell>, H: int, post: seq<seq<Req>>)
  {
    var n := |pre|;
    var k := PushTotal(p, cells, H);
    && |s| == n + k + |post|
    && (forall i :: 0 <= i < n ==> Realizes(m, s[i], pre[i]))
    && (forall i :: n <= i < n + k ==> PushIn(m, p, cells, H, s[i]))
    && (forall i :: 0 <= i < |post| ==> Realizes(m, s[n + k + i], post[i]))
  }

  /** Realize `pre`, run the push loops over `cells`, realize `post`, from manager `m`. */
  function Assemble(m: Manager, p: Prep, H: int, pre: seq<seq<Req>>, cells: seq<Cell>, post: seq<seq<Req>>): (r: (Manager, seq<Clause>))
    requires Valid(m)
    ensures Valid(r.0) && Extends(m, r.0)
    ensures Layout(r.0, r.1, pre, p, cells, H, post)
  {
    var (m1, a) := RealizeAll(m, pre);
    RealizeAllRealizes(m, pre);
    var (m2, b) := PushCells(m1, p, cells, H);
    var (m3, c) := RealizeAll(m2, post);
    RealizeAllRealizes(m2, post);
    ExtendsTransitive(m1, m2, m3);
    ExtendsTransitive(m, m1, m3);
    RealizesStable(m1, m3, a, pre);
    PushInStable(m2, m3, p, cells, H, b);
    AssembleLayout(a, b, c, p, H, m3, pre, cells, post);
    (m3, a + b + c)
  }

  /** The solver after `AllConstraints` with step limit `H`: the literal manager and
      the clause list.  The first clauses realize `InitState`, `SolvedState` and the
      player movement requests, then come the push clauses of `BoxPushMovement`, then
      the realized placement, collision, existence and box frame requests. */
  function AllConstraints(p: Prep, H: int): (r: (Manager, seq<Clause>))
    requires p.Valid()
    ensures Valid(r.0)
    ensures Layout(r.0, r.1, Prefix(p, H), p, BoxCells(p), H, Suffix(p, H))
  {
    InitialValid();
    Assemble(Initial, p, H, Prefix(p, H), BoxCells(p), Suffix(p, H))
  }

  /** The encoding opens with `InitState`: each of its first clauses is one unit
      literal naming an entity's start cell at time 0 (positive) or another free
      cell (negative). */
  lemma AllConstraintsOpensWithInitState(p: Prep, H: int, i: int)
    requires p.Valid() && 0 <= i < |InitState(p)|
    ensures var r := AllConstraints(p, H);
      i < |r.1| && |r.1[i].lits| == 1 && exists q :: InitUnit(p, q) && Denotes(r.0, r.1[i].lits[0], q)
  {
    var r := AllConstraints(p, H);
    var cl := InitState(p)[i];
    assert Prefix(p, H)[i] == cl;
    assert Realizes(r.0, r.1[i], cl);
    InitStateCharacterised(p, cl);
    assert Denotes(r.0, r.1[i].lits[0], cl[0]);
  }

  /** Indexing into the concatenation of the three parts. */
  lemma AssembleLayout(a: seq<Clause>, b: seq<Clause>, c: seq<Clause>, p: Prep, H: int, m: Manager,
                       pre: seq<seq<Req>>, cells: seq<Cell>, post: seq<seq<Req>>)
    requires |a| == |pre| && |b| == PushTotal(p, cells, H) && |c| == |post|
    requires forall i :: 0 <= i < |a| ==> Realizes(m, a[i], pre[i])
    requires forall cl :: cl in b ==> PushIn(m, p, cells, H, cl)
    requires forall i :: 0 <= i < |c| ==> Realizes(m, c[i], post[i])
    ensures Layout(m, a + b + c, pre, p, cells, H, post)
  {
    var s := a + b + c;
    forall i | |a| <= i < |a| + |b|
      ensures PushIn(m, p, cells, H, s[i])
    {
      assert s[i] == b[i - |a|];
    }
  }
}
