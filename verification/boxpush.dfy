/** `BoxPushMovementConstraints`: the box frame axiom with pushes.

    For a box `b` on a live walkable cell `w` at time `t`, each player and each
    direction from which the box can have been pushed onto `w` contributes a triple
    {B(near, b, t-1), P(far, pl, t-1), P(near, pl, t)}: the box stood on the near
    cell and the player behind it, and the player stepped onto the near cell.  The
    triples' literals are allocated while the `vector<set<Lit>>` is built, each set
    iterating in id order; then, for every combination of the Cartesian product, the
    clause `~B(w, b, t) ∨ B(w, b, t-1) ∨ combination` is added.  Because the head
    literals are allocated after the triples, this family threads the literal
    manager itself instead of going through `Families`' request lists. */
module BoxPush {
  import opened Seqs
  import opened Boards
  import opened Literals
  import opened Cartesian
  import opened Preprocessor
  import opened Families

  /** The push directions, as offsets from `w` to the box's origin, in the order the
      source tries them: up, down, right, left. */
  const Directions: seq<Cell> := [Cell(-1, 0), Cell(1, 0), Cell(0, 1), Cell(0, -1)]

  /** The box's origin: one step from `w` along `d`. */
  function Near(w: Cell, d: Cell): Cell
  {
    Cell(w.row + d.row, w.col + d.col)
  }

  /** Where the pushing player stood: two steps from `w` along `d`. */
  function Far(w: Cell, d: Cell): Cell
  {
    Cell(w.row + 2 * d.row, w.col + 2 * d.col)
  }

  /** A push onto `w` from direction `d` is possible: the far cell is on the board
      (so is the near one, between it and `w`), neither is a wall, and the near cell
      is not a deadlock position. */
  predicate Pushable(p: Prep, w: Cell, d: Cell)
  {
    && p.board.InGrid(Far(w, d))
    && p.board.NotWall(Near(w, d).row, Near(w, d).col)
    && !p.DeadAt(Near(w, d))
    && p.board.NotWall(Far(w, d).row, Far(w, d).col)
  }

  /** The triple of one (player, direction) push, in the order of the braced list. */
  function Triple(w: Cell, d: Cell, b: int, pl: int, t: int): seq<Req>
  {
    [BoxAt(Near(w, d), b, t - 1), PlayerAt(Far(w, d), pl, t - 1), PlayerAt(Near(w, d), pl, t)]
  }

  /** One player's triples, over the directions in order. */
  function PlayerTriples(p: Prep, w: Cell, b: int, pl: int, t: int): seq<seq<Req>>
  {
    ForEach(Directions, d => if Pushable(p, w, d) then [Triple(w, d, b, pl, t)] else [])
  }

  /** `sets_push` before allocation: every player, then every direction. */
  function Triples(p: Prep, w: Cell, b: int, t: int): seq<seq<Req>>
  {
    ForRange(0, p.board.PlayerNum(), pl => PlayerTriples(p, w, b, pl, t))
  }

  /** The directions from which a push onto `w` is possible, in order. */
  function PushableDirections(p: Prep, w: Cell): seq<Cell>
  {
    ForEach(Directions, d => if Pushable(p, w, d) then [d] else [])
  }

  /** Every player contributes one triple per pushable direction, so there are
      none exactly when no direction is pushable or there is no player. */
  lemma TriplesCount(p: Prep, w: Cell, b: int, t: int)
    ensures |Triples(p, w, b, t)| == p.board.PlayerNum() * |PushableDirections(p, w)|
  {
    var k := |PushableDirections(p, w)|;
    forall pl
      ensures |PlayerTriples(p, w, b, pl, t)| == k
    {
      assert |PlayerTriples(p, w, b, pl, t)| == |PushableDirections(p, w)|;
    }
    ForRangeUniform(0, p.board.PlayerNum(), pl => PlayerTriples(p, w, b, pl, t), k);
  }

  /** The meaning of a push triple for a box on `w` at `t`: the triple of the player
      of its second request and of the direction its first request lies in, which
      must be pushable. */
  predicate IsTriple(p: Prep, w: Cell, b: int, t: int, tr: seq<Req>)
  {
    && |tr| == 3
    && 0 <= tr[1].obj < p.board.PlayerNum()
    && var d := Cell(tr[0].cell.row - w.row, tr[0].cell.col - w.col);
       d in Directions && Pushable(p, w, d) && tr == Triple(w, d, b, tr[1].obj, t)
  }

  lemma PlayerTripleSound(p: Prep, w: Cell, b: int, pl: int, t: int, tr: seq<Req>)
    requires 0 <= pl < p.board.PlayerNum()
    requires tr in PlayerTriples(p, w, b, pl, t)
    ensures IsTriple(p, w, b, t, tr) && tr[1].obj == pl
  {
    var f := d => if Pushable(p, w, d) then [Triple(w, d, b, pl, t)] else [];
    ForEachMember(Directions, f, tr);
    var d :| d in Directions && tr in f(d);
    assert Pushable(p, w, d) && tr == Triple(w, d, b, pl, t);
    assert Cell(tr[0].cell.row - w.row, tr[0].cell.col - w.col) == d;
  }

  lemma PlayerTripleComplete(p: Prep, w: Cell, b: int, pl: int, t: int, tr: seq<Req>)
    requires IsTriple(p, w, b, t, tr) && tr[1].obj == pl
    ensures tr in PlayerTriples(p, w, b, pl, t)
  {
    var f := d => if Pushable(p, w, d) then [Triple(w, d, b, pl, t)] else [];
    ForEachMember(Directions, f, tr);
    var d := Cell(tr[0].cell.row - w.row, tr[0].cell.col - w.col);
    assert tr in f(d);
  }

  /** One player's triples are the push triples naming that player. */
  lemma PlayerTriplesMember(p: Prep, w: Cell, b: int, pl: int, t: int, tr: seq<Req>)
    requires 0 <= pl < p.board.PlayerNum()
    ensures tr in PlayerTriples(p, w, b, pl, t) <==> IsTriple(p, w, b, t, tr) && tr[1].obj == pl
  {
    if tr in PlayerTriples(p, w, b, pl, t) {
      PlayerTripleSound(p, w, b, pl, t, tr);
    }
    if IsTriple(p, w, b, t, tr) && tr[1].obj == pl {
      PlayerTripleComplete(p, w, b, pl, t, tr);
    }
  }

  /** `sets_push` holds exactly the triples `IsTriple` describes. */
  lemma TriplesMember(p: Prep, w: Cell, b: int, t: int, tr: seq<Req>)
    ensures tr in Triples(p, w, b, t) <==> IsTriple(p, w, b, t, tr)
  {
    var f := pl => PlayerTriples(p, w, b, pl, t);
    ForRangeMember(0, p.board.PlayerNum(), f, tr);
    if tr in Triples(p, w, b, t) {
      var pl :| 0 <= pl < p.board.PlayerNum() && tr in f(pl);
      PlayerTriplesMember(p, w, b, pl, t, tr);
    }
    if IsTriple(p, w, b, t, tr) {
      PlayerTriplesMember(p, w, b, tr[1].obj, t, tr);
      assert tr in f(tr[1].obj);
    }
  }

  /** Three positive requests for three different tuples. */
  predicate DistinctTriple(tr: seq<Req>)
  {
    && |tr| == 3
    && tr[0].positive && tr[1].positive && tr[2].positive
    && (tr[0].kind, tr[0].cell, tr[0].obj, tr[0].time) != (tr[1].kind, tr[1].cell, tr[1].obj, tr[1].time)
    && (tr[0].kind, tr[0].cell, tr[0].obj, tr[0].time) != (tr[2].kind, tr[2].cell, tr[2].obj, tr[2].time)
    && (tr[1].kind, tr[1].cell, tr[1].obj, tr[1].time) != (tr[2].kind, tr[2].cell, tr[2].obj, tr[2].time)
  }

  /** Every push triple names three different tuples: a box literal and two player
      literals one time step apart. */
  lemma TriplesDistinct(p: Prep, w: Cell, b: int, t: int)
    ensures forall tr :: tr in Triples(p, w, b, t) ==> DistinctTriple(tr)
  {
    forall tr | tr in Triples(p, w, b, t)
      ensures DistinctTriple(tr)
    {
      TriplesMember(p, w, b, t, tr);
    }
  }

  /** `l` is the literal of one of the requests of triple `tr`. */
  predicate DenotesOneOf(m: Manager, l: Lit, tr: seq<Req>)
  {
    |tr| == 3 && (Denotes(m, l, tr[0]) || Denotes(m, l, tr[1]) || Denotes(m, l, tr[2]))
  }

  lemma OneOfStable(m: Manager, m': Manager, l: Lit, tr: seq<Req>)
    requires Extends(m, m') && DenotesOneOf(m, l, tr)
    ensures DenotesOneOf(m', l, tr)
  {
    if Denotes(m, l, tr[0]) {
      DenotesStable(m, m', l, tr[0]);
    } else if Denotes(m, l, tr[1]) {
      DenotesStable(m, m', l, tr[1]);
    } else {
      DenotesStable(m, m', l, tr[2]);
    }
  }

  /** `s` is the allocated set of triple `tr`: three literals in id order, each of
      one of its requests, and every request has its literal among them. */
  predicate SetFor(m: Manager, s: seq<Lit>, tr: seq<Req>)
  {
    && |s| == 3 && |tr| == 3
    && IncreasingIds(s)
    && (forall l :: l in s ==> DenotesOneOf(m, l, tr))
    && forall j :: 0 <= j < 3 ==> Covers(m, s, tr[j])
  }

  /** Some literal of `s` denotes request `q`. */
  predicate Covers(m: Manager, s: seq<Lit>, q: Req)
  {
    exists l :: l in s && Denotes(m, l, q)
  }

  lemma SetForStable(m: Manager, m': Manager, s: seq<Lit>, tr: seq<Req>)
    requires Extends(m, m') && SetFor(m, s, tr)
    ensures SetFor(m', s, tr)
  {
    forall l | l in s
      ensures DenotesOneOf(m', l, tr)
    {
      OneOfStable(m, m', l, tr);
    }
    forall j | 0 <= j < 3
      ensures Covers(m', s, tr[j])
    {
      var l :| l in s && Denotes(m, l, tr[j]);
      DenotesStable(m, m', l, tr[j]);
      assert l in s && Denotes(m', l, tr[j]);
    }
  }

  /** Triple `tr` holds entirely under `A`: each of its three requests has a literal
      that `A` makes true. */
  ghost predicate TripleHolds(m: Manager, tr: seq<Req>, A: Lit -> bool)
  {
    |tr| == 3 && forall j :: 0 <= j < 3 ==> RequestHolds(m, tr[j], A)
  }

  /** Request `q` has a literal that `A` makes true. */
  ghost predicate RequestHolds(m: Manager, q: Req, A: Lit -> bool)
  {
    exists l :: Denotes(m, l, q) && A(l)
  }

  /** An allocated push set holds entirely exactly when its triple does: the set
      is the triple's three literals and nothing else. */
  lemma SetHoldsIffTriple(m: Manager, s: seq<Lit>, tr: seq<Req>, A: Lit -> bool)
    requires Valid(m) && SetFor(m, s, tr)
    ensures AllHold(s, A) <==> TripleHolds(m, tr, A)
  {
    if AllHold(s, A) {
      forall j | 0 <= j < 3
        ensures RequestHolds(m, tr[j], A)
      {
        assert Covers(m, s, tr[j]);
        var l :| l in s && Denotes(m, l, tr[j]);
        var k :| 0 <= k < |s| && s[k] == l;
        assert A(s[k]);
      }
    }
    if TripleHolds(m, tr, A) {
      forall k | 0 <= k < |s|
        ensures A(s[k])
      {
        var l := s[k];
        assert DenotesOneOf(m, l, tr);
        var j :| 0 <= j < 3 && Denotes(m, l, tr[j]);
        assert RequestHolds(m, tr[j], A);
        var l' :| Denotes(m, l', tr[j]) && A(l');
        DenotesUnique(m, l, l', tr[j]);
      }
    }
  }

  /** `sets[i]` is the allocated set of `trs[i]`, for every `i`. */
  predicate SetsFor(m: Manager, sets: seq<seq<Lit>>, trs: seq<seq<Req>>)
  {
    |sets| == |trs| && forall i :: 0 <= i < |trs| ==> SetFor(m, sets[i], trs[i])
  }

  lemma SetsForSizes(m: Manager, sets: seq<seq<Lit>>, trs: seq<seq<Req>>)
    requires SetsFor(m, sets, trs)
    ensures forall i :: 0 <= i < |sets| ==> |sets[i]| == 3
  {
    forall i | 0 <= i < |sets|
      ensures |sets[i]| == 3
    {
      assert SetFor(m, sets[i], trs[i]);
    }
  }

  lemma SetsForSnoc(m: Manager, m': Manager, sets: seq<seq<Lit>>, trs: seq<seq<Req>>, s: seq<Lit>, tr: seq<Req>)
    requires Extends(m, m') && SetsFor(m, sets, trs) && SetFor(m', s, tr)
    ensures SetsFor(m', sets + [s], trs + [tr])
  {
    forall i | 0 <= i < |trs|
      ensures SetFor(m', sets[i], trs[i])
    {
      SetForStable(m, m', sets[i], trs[i]);
    }
  }

  /** One `set<Lit>` of `sets_push`: the triple's literals, allocated left to right,
      in id order. */
  function RealizeSet(m: Manager, tr: seq<Req>): (r: (Manager, seq<Lit>))
    requires Valid(m) && DistinctTriple(tr)
    ensures Valid(r.0) && Extends(m, r.0)
    ensures IncreasingIds(r.1) && SetFor(r.0, r.1, tr)
  {
    var (m', c) := RealizeClause(m, tr);
    TripleSet(m', c.lits, tr);
    (m', LitSet(c.lits))
  }

  /** The literals of a triple's three distinct tuples, gathered into a set, are three
      literals in id order, each denoting one of the tuples. */
  lemma TripleSet(m: Manager, ls: seq<Lit>, tr: seq<Req>)
    requires Valid(m) && DistinctTriple(tr) && |ls| == 3
    requires forall j :: 0 <= j < 3 ==> Denotes(m, ls[j], tr[j])
    ensures IncreasingIds(LitSet(ls)) && SetFor(m, LitSet(ls), tr)
  {
    TripleIdsDistinct(m, ls, tr);
    LitSetOfDistinct(ls);
    TripleOneOf(m, ls, LitSet(ls), tr);
    TripleCovered(m, ls, LitSet(ls), tr);
  }

  /** The literals of three distinct tuples have three different ids. */
  lemma TripleIdsDistinct(m: Manager, ls: seq<Lit>, tr: seq<Req>)
    requires Valid(m) && DistinctTriple(tr) && |ls| == 3
    requires forall j :: 0 <= j < 3 ==> Denotes(m, ls[j], tr[j])
    ensures forall i, j :: 0 <= i < j < |ls| ==> ls[i].x != ls[j].x
  {
    SameVariableIffSameTuple(m, ls[0], tr[0], ls[1], tr[1]);
    SameVariableIffSameTuple(m, ls[0], tr[0], ls[2], tr[2]);
    SameVariableIffSameTuple(m, ls[1], tr[1], ls[2], tr[2]);
  }

  /** A set drawn from a triple's literals holds only literals of its requests. */
  lemma TripleOneOf(m: Manager, ls: seq<Lit>, s: seq<Lit>, tr: seq<Req>)
    requires |ls| == 3 && |tr| == 3
    requires forall j :: 0 <= j < 3 ==> Denotes(m, ls[j], tr[j])
    requires forall e :: e in s ==> e in ls
    ensures forall l :: l in s ==> DenotesOneOf(m, l, tr)
  {
    forall l | l in s
      ensures DenotesOneOf(m, l, tr)
    {
      var j :| 0 <= j < 3 && ls[j] == l;
      assert Denotes(m, ls[j], tr[j]);
    }
  }

  /** A set holding every literal of a triple's requests covers the triple. */
  lemma TripleCovered(m: Manager, ls: seq<Lit>, s: seq<Lit>, tr: seq<Req>)
    requires |ls| == 3 && |tr| == 3
    requires forall j :: 0 <= j < 3 ==> Denotes(m, ls[j], tr[j])
    requires forall e :: e in ls ==> e in s
    ensures forall j :: 0 <= j < 3 ==> Covers(m, s, tr[j])
  {
    forall j | 0 <= j < 3
      ensures Covers(m, s, tr[j])
    {
      assert ls[j] in ls;
      assert ls[j] in s && Denotes(m, ls[j], tr[j]);
    }
  }

  /** `sets_push` after allocation: the triples' sets, allocated in order. */
  function RealizeSets(m: Manager, trs: seq<seq<Req>>): (r: (Manager, seq<seq<Lit>>))
    requires Valid(m)
    requires forall i :: 0 <= i < |trs| ==> DistinctTriple(trs[i])
    ensures Valid(r.0) && Extends(m, r.0)
    ensures SetsFor(r.0, r.1, trs)
    decreases |trs|
  {
    if |trs| == 0 then (m, [])
    else
      var n := |trs| - 1;
      assert trs == trs[..n] + [trs[n]];
      var (m1, sets) := RealizeSets(m, trs[..n]);
      var (m2, s) := RealizeSet(m1, trs[n]);
      SetsForSnoc(m1, m2, sets, trs[..n], s, trs[n]);
      (m2, sets + [s])
  }

  /** A sequence of `AddLit` calls. */
  function AddLits(c: Clause, ls: seq<Lit>): (r: Clause)
    ensures r.lits == c.lits + ls
    decreases |ls|
  {
    if |ls| == 0 then c
    else
      var n := |ls| - 1;
      assert ls == ls[..n] + [ls[n]];
      AddLits(c, ls[..n]).AddLit(ls[n])
  }

  /** The two literals every push clause starts with. */
  function Head(w: Cell, b: int, t: int): seq<Req>
  {
    [Not(BoxAt(w, b, t)), BoxAt(w, b, t - 1)]
  }

  /** `c` is the two literals of `head` followed by `combo`. */
  predicate Headed(m: Manager, c: Clause, head: seq<Req>, combo: seq<Lit>)
  {
    && |head| == 2
    && |c.lits| == 2 + |combo|
    && c.lits[2..] == combo
    && Denotes(m, c.lits[0], head[0])
    && Denotes(m, c.lits[1], head[1])
  }

  lemma HeadedStable(m: Manager, m': Manager, c: Clause, head: seq<Req>, combo: seq<Lit>)
    requires Extends(m, m') && Headed(m, c, head, combo)
    ensures Headed(m', c, head, combo)
  {
    DenotesStable(m, m', c.lits[0], head[0]);
    DenotesStable(m, m', c.lits[1], head[1]);
  }

  /** In a valid state a request has at most one literal. */
  lemma DenotesUnique(m: Manager, l1: Lit, l2: Lit, q: Req)
    requires Valid(m) && Denotes(m, l1, q) && Denotes(m, l2, q)
    ensures l1 == l2
  {
    SameVariableIffSameTuple(m, l1, q, l2, q);
  }

  lemma HeadedCons(m: Manager, c: Clause, out: seq<Clause>, head: seq<Req>, combos: seq<seq<Lit>>)
    requires |combos| > 0 && |out| == |combos| - 1 && Headed(m, c, head, combos[0])
    requires forall i :: 0 <= i < |out| ==> Headed(m, out[i], head, combos[1..][i])
    ensures forall i :: 0 <= i < |combos| ==> Headed(m, ([c] + out)[i], head, combos[i])
  {
    forall i | 1 <= i < |combos|
      ensures Headed(m, ([c] + out)[i], head, combos[i])
    {
      assert ([c] + out)[i] == out[i - 1] && combos[1..][i - 1] == combos[i];
    }
  }

  /** In a valid state a headed clause is its two head literals and its combination. */
  lemma HeadedLits(m: Manager, c: Clause, head: seq<Req>, combo: seq<Lit>, l0: Lit, l1: Lit)
    requires Valid(m) && Headed(m, c, head, combo)
    requires Denotes(m, l0, head[0]) && Denotes(m, l1, head[1])
    ensures c.lits == [l0, l1] + combo
  {
    DenotesUnique(m, c.lits[0], l0, head[0]);
    DenotesUnique(m, c.lits[1], l1, head[1]);
    assert c.lits == c.lits[..2] + c.lits[2..];
  }

  /** The realized head followed by `combo` is headed. */
  lemma HeadedAddLits(m: Manager, c: Clause, head: seq<Req>, combo: seq<Lit>)
    requires |head| == 2 && |c.lits| == 2
    requires forall i :: 0 <= i < 2 ==> Denotes(m, c.lits[i], head[i])
    ensures Headed(m, AddLits(c, combo), head, combo)
  {
    var c' := AddLits(c, combo);
    assert c'.lits[0] == c.lits[0] && c'.lits[1] == c.lits[1];
    assert c'.lits[2..] == combo;
  }

  /** The clauses of one product: for each combination, the head literals
      (allocated on first use) and then the combination. */
  function PushClauses(m: Manager, head: seq<Req>, combos: seq<seq<Lit>>): (r: (Manager, seq<Clause>))
    requires Valid(m) && |head| == 2
    ensures Valid(r.0) && Extends(m, r.0)
    ensures |r.1| == |combos|
    ensures forall i :: 0 <= i < |combos| ==> Headed(r.0, r.1[i], head, combos[i])
    decreases |combos|
  {
    if |combos| == 0 then (m, [])
    else
      var (m1, c) := RealizeClause(m, head);
      var c' := AddLits(c, combos[0]);
      HeadedAddLits(m1, c, head, combos[0]);
      var (m2, out) := PushClauses(m1, head, combos[1..]);
      HeadedStable(m1, m2, c', head, combos[0]);
      ExtendsTransitive(m, m1, m2);
      HeadedCons(m2, c', out, head, combos);
      (m2, [c'] + out)
  }

  /** `sets_push` for box `b` on `w` at `t`, allocated. */
  function PushSets(m: Manager, p: Prep, w: Cell, b: int, t: int): (r: (Manager, seq<seq<Lit>>))
    requires Valid(m)
    ensures Valid(r.0) && Extends(m, r.0)
    ensures SetsFor(r.0, r.1, Triples(p, w, b, t))
  {
    TriplesDistinct(p, w, b, t);
    RealizeSets(m, Triples(p, w, b, t))
  }

  /** The body of the `t` loop for one cell and box: build and allocate `sets_push`;
      when it is empty add nothing, otherwise one clause per combination. */
  function PushStep(m: Manager, p: Prep, w: Cell, b: int, t: int): (r: (Manager, seq<Clause>))
    requires Valid(m)
    ensures Valid(r.0) && Extends(m, r.0)
  {
    var (m1, sets) := PushSets(m, p, w, b, t);
    if |sets| == 0 then (m1, [])
    else PushClauses(m1, Head(w, b, t), Product(sets))
  }

  /** The shape of a push clause for box `b` on `w` at `t`: the head literals, then
      one literal of each push triple, in triple order. */
  predicate PushShape(m: Manager, p: Prep, w: Cell, b: int, t: int, c: Clause)
  {
    var trs := Triples(p, w, b, t);
    && |c.lits| == 2 + |trs|
    && Denotes(m, c.lits[0], Not(BoxAt(w, b, t)))
    && Denotes(m, c.lits[1], BoxAt(w, b, t - 1))
    && forall k :: 0 <= k < |trs| ==> DenotesOneOf(m, c.lits[2 + k], trs[k])
  }

  lemma PushShapeStable(m: Manager, m': Manager, p: Prep, w: Cell, b: int, t: int, c: Clause)
    requires Extends(m, m') && PushShape(m, p, w, b, t, c)
    ensures PushShape(m', p, w, b, t, c)
  {
    var trs := Triples(p, w, b, t);
    DenotesStable(m, m', c.lits[0], Not(BoxAt(w, b, t)));
    DenotesStable(m, m', c.lits[1], BoxAt(w, b, t - 1));
    forall k | 0 <= k < |trs|
      ensures DenotesOneOf(m', c.lits[2 + k], trs[k])
    {
      OneOfStable(m, m', c.lits[2 + k], trs[k]);
    }
  }

  /** A headed clause over a combination of allocated push sets has the push shape. */
  lemma HeadedIsPushShape(m: Manager, p: Prep, w: Cell, b: int, t: int, sets: seq<seq<Lit>>, c: Clause, combo: seq<Lit>)
    requires SetsFor(m, sets, Triples(p, w, b, t))
    requires combo in Product(sets) && Headed(m, c, Head(w, b, t), combo)
    ensures PushShape(m, p, w, b, t, c)
  {
    var trs := Triples(p, w, b, t);
    SetsForSizes(m, sets, trs);
    NonEmptyAll(sets);
    ProductMember(sets, combo);
    forall k | 0 <= k < |trs|
      ensures DenotesOneOf(m, c.lits[2 + k], trs[k])
    {
      assert c.lits[2 + k] == combo[k];
      assert combo[k] in sets[k];
      assert SetFor(m, sets[k], trs[k]);
    }
  }

  /** One step adds 3^k clauses when k push triples apply and none when none does;
      every clause has the push shape. */
  lemma PushStepShape(m: Manager, p: Prep, w: Cell, b: int, t: int)
    requires Valid(m)
    ensures var r := PushStep(m, p, w, b, t); var k := |Triples(p, w, b, t)|;
      && |r.1| == (if k == 0 then 0 else Pow(3, k))
      && forall c :: c in r.1 ==> PushShape(r.0, p, w, b, t, c)
  {
    var (m1, sets) := PushSets(m, p, w, b, t);
    if |sets| > 0 {
      var combos := Product(sets);
      var (m2, out) := PushClauses(m1, Head(w, b, t), combos);
      SetsForSizes(m1, sets, Triples(p, w, b, t));
      ProductCount(sets);
      SizeProductUniform(sets, 3);
      NonEmptyAll(sets);
      forall i | 0 <= i < |sets|
        ensures SetFor(m2, sets[i], Triples(p, w, b, t)[i])
      {
        SetForStable(m1, m2, sets[i], Triples(p, w, b, t)[i]);
      }
      forall c | c in out
        ensures PushShape(m2, p, w, b, t, c)
      {
        var i :| 0 <= i < |out| && out[i] == c;
        HeadedIsPushShape(m2, p, w, b, t, sets, c, combos[i]);
      }
    }
  }

  /** Clauses `l0 ∨ l1 ∨ combination`, one per combination of the product of
      non-empty sets, all hold exactly when `l0` or `l1` holds or some set holds
      entirely. */
  lemma {:induction false} HeadedProductMeaning(out: seq<Clause>, l0: Lit, l1: Lit, sets: seq<seq<Lit>>, A: Lit -> bool)
    requires forall i :: 0 <= i < |sets| ==> |sets[i]| > 0
    requires |out| == |Product(sets)|
    requires forall i :: 0 <= i < |out| ==> out[i].lits == [l0, l1] + Product(sets)[i]
    ensures (forall c :: c in out ==> SomeHolds(c.lits, A)) <==>
            (A(l0) || A(l1) || exists i :: 0 <= i < |sets| && AllHold(sets[i], A))
  {
    var combos := Product(sets);
    ProductDistributes(sets, A);
    forall i | 0 <= i < |out|
      ensures SomeHolds(out[i].lits, A) <==> A(l0) || A(l1) || SomeHolds(combos[i], A)
    {
      var c := out[i];
      if SomeHolds(combos[i], A) {
        var j :| 0 <= j < |combos[i]| && A(combos[i][j]);
        assert c.lits[2 + j] == combos[i][j];
      }
      if A(l0) {
        assert c.lits[0] == l0;
      }
      if A(l1) {
        assert c.lits[1] == l1;
      }
      if SomeHolds(c.lits, A) {
        var j :| 0 <= j < |c.lits| && A(c.lits[j]);
        if j >= 2 {
          assert combos[i][j - 2] == c.lits[j];
        }
      }
    }
    if !(A(l0) || A(l1)) {
      if forall c :: c in out ==> SomeHolds(c.lits, A) {
        forall c | c in combos
          ensures SomeHolds(c, A)
        {
          var i :| 0 <= i < |combos| && combos[i] == c;
          assert out[i] in out;
        }
      }
      if exists i :: 0 <= i < |sets| && AllHold(sets[i], A) {
        forall c | c in out
          ensures SomeHolds(c.lits, A)
        {
          var i :| 0 <= i < |out| && out[i] == c;
          assert combos[i] in combos;
        }
      }
    } else {
      forall c | c in out
        ensures SomeHolds(c.lits, A)
      {
        var i :| 0 <= i < |out| && out[i] == c;
      }
    }
  }

  /** The meaning of one step's clauses under any assignment `A` of the literals:
      when some push triple applies, they all hold exactly when a head literal
      (`~B(w, b, t)` or `B(w, b, t-1)`) holds or some push set holds entirely, that
      is, when the three literals of some push triple all hold. */
  lemma PushStepMeaning(m: Manager, p: Prep, w: Cell, b: int, t: int, A: Lit -> bool, l0: Lit, l1: Lit)
    requires Valid(m)
    requires |Triples(p, w, b, t)| > 0
    requires Denotes(PushStep(m, p, w, b, t).0, l0, Not(BoxAt(w, b, t)))
    requires Denotes(PushStep(m, p, w, b, t).0, l1, BoxAt(w, b, t - 1))
    ensures var sets := PushSets(m, p, w, b, t).1;
      (forall c :: c in PushStep(m, p, w, b, t).1 ==> SomeHolds(c.lits, A)) <==>
      (A(l0) || A(l1) || exists i :: 0 <= i < |sets| && AllHold(sets[i], A))
    ensures var trs := Triples(p, w, b, t); var r := PushStep(m, p, w, b, t);
      (forall c :: c in r.1 ==> SomeHolds(c.lits, A)) <==>
      (A(l0) || A(l1) || exists i :: 0 <= i < |trs| && TripleHolds(r.0, trs[i], A))
  {
    var (m1, sets) := PushSets(m, p, w, b, t);
    var combos := Product(sets);
    var (m2, out) := PushClauses(m1, Head(w, b, t), combos);
    assert PushStep(m, p, w, b, t) == (m2, out);
    forall i | 0 <= i < |out|
      ensures out[i].lits == [l0, l1] + combos[i]
    {
      HeadedLits(m2, out[i], Head(w, b, t), combos[i], l0, l1);
    }
    SetsForSizes(m1, sets, Triples(p, w, b, t));
    HeadedProductMeaning(out, l0, l1, sets, A);
    SetsHoldIffTriples(m1, m2, sets, Triples(p, w, b, t), A);
  }

  /** Some allocated push set holds entirely exactly when some push triple does,
      read in any later manager. */
  lemma SetsHoldIffTriples(m: Manager, m': Manager, sets: seq<seq<Lit>>, trs: seq<seq<Req>>, A: Lit -> bool)
    requires Extends(m, m') && Valid(m') && SetsFor(m, sets, trs)
    ensures (exists i :: 0 <= i < |sets| && AllHold(sets[i], A)) <==>
            (exists i :: 0 <= i < |trs| && TripleHolds(m', trs[i], A))
  {
    forall i | 0 <= i < |trs|
      ensures AllHold(sets[i], A) <==> TripleHolds(m', trs[i], A)
    {
      SetForStable(m, m', sets[i], trs[i]);
      SetHoldsIffTriple(m', sets[i], trs[i], A);
    }
  }

  /** `n` loop iterations adding `k` clauses each: `n * k` (`RepeatIsProduct`),
      kept as repeated addition so that the loops' count proofs stay linear. */
  function Repeat(n: nat, k: nat): nat
  {
    if n == 0 then 0 else k + Repeat(n - 1, k)
  }

  /** One more iteration of a `t` loop over `[t, H]` adds `k` to its count. */
  lemma RepeatCountStep(t: int, H: int, k: nat)
    requires t <= H
    ensures Repeat(Count(t, H + 1), k) == k + Repeat(Count(t + 1, H + 1), k)
  {
    assert Count(t, H + 1) - 1 == Count(t + 1, H + 1);
  }

  /** One more iteration of a `box` loop over `[b, n)` adds `k` to its count. */
  lemma RepeatBoxStep(b: int, n: int, k: nat)
    requires b < n
    ensures Repeat(Count(b, n), k) == k + Repeat(Count(b + 1, n), k)
  {
    assert Count(b, n) - 1 == Count(b + 1, n);
  }

  lemma {:induction false} RepeatIsProduct(n: nat, k: nat)
    ensures Repeat(n, k) == n * k
  {
    if n > 0 {
      RepeatIsProduct(n - 1, k);
    }
  }

  /** The clauses one (cell, box, time) step adds: 3^k for the k push triples,
      which depend on the cell only. */
  function PushCount(p: Prep, w: Cell): nat
  {
    var k: nat := p.board.PlayerNum() * |PushableDirections(p, w)|;
    if k == 0 then 0 else Pow(3, k)
  }

  lemma PushStepCount(m: Manager, p: Prep, w: Cell, b: int, t: int)
    requires Valid(m)
    ensures |PushStep(m, p, w, b, t).1| == PushCount(p, w)
    ensures forall c :: c in PushStep(m, p, w, b, t).1 ==> PushShape(PushStep(m, p, w, b, t).0, p, w, b, t, c)
  {
    PushStepShape(m, p, w, b, t);
    TriplesCount(p, w, b, t);
  }

  lemma PushStepLength(m: Manager, p: Prep, w: Cell, b: int, t: int)
    requires Valid(m)
    ensures |PushStep(m, p, w, b, t).1| == PushCount(p, w)
  {
    PushStepCount(m, p, w, b, t);
  }

  /** `c` is a push clause for box `b` on `w` at a time in `[lo, H]`, the time read
      off its first literal. */
  predicate PushAt(m: Manager, p: Prep, w: Cell, b: int, lo: int, H: int, c: Clause)
  {
    |c.lits| >= 1 && lo <= c.lits[0].time <= H && PushShape(m, p, w, b, c.lits[0].time, c)
  }

  lemma PushAtStable(m: Manager, m': Manager, p: Prep, w: Cell, b: int, lo: int, H: int, cs: seq<Clause>)
    requires Extends(m, m') && forall c :: c in cs ==> PushAt(m, p, w, b, lo, H, c)
    ensures forall c :: c in cs ==> PushAt(m', p, w, b, lo, H, c)
  {
    forall c | c in cs
      ensures PushAt(m', p, w, b, lo, H, c)
    {
      PushShapeStable(m, m', p, w, b, c.lits[0].time, c);
    }
  }

  /** A step's clauses are push clauses at its time. */
  lemma PushStepAt(m: Manager, p: Prep, w: Cell, b: int, t: int, H: int)
    requires Valid(m) && 1 <= t <= H
    ensures forall c :: c in PushStep(m, p, w, b, t).1 ==> PushAt(PushStep(m, p, w, b, t).0, p, w, b, t, H, c)
  {
    var (m1, cs) := PushStep(m, p, w, b, t);
    PushStepCount(m, p, w, b, t);
    forall c | c in cs
      ensures PushAt(m1, p, w, b, t, H, c)
    {
      assert PushShape(m1, p, w, b, t, c);
    }
  }

  /** The `t` loop, from `t` to `H`. */
  function PushTimes(m: Manager, p: Prep, w: Cell, b: int, t: int, H: int): (r: (Manager, seq<Clause>))
    requires Valid(m) && 1 <= t
    ensures Valid(r.0) && Extends(m, r.0)
    ensures |r.1| == Repeat(Count(t, H + 1), PushCount(p, w))
    ensures forall c :: c in r.1 ==> PushAt(r.0, p, w, b, t, H, c)
    decreases H - t
  {
    if t > H then (m, [])
    else
      var (m1, cs) := PushStep(m, p, w, b, t);
      PushStepLength(m, p, w, b, t);
      PushStepAt(m, p, w, b, t, H);
      var (m2, rest) := PushTimes(m1, p, w, b, t + 1, H);
      ExtendsTransitive(m, m1, m2);
      PushAtStable(m1, m2, p, w, b, t, H, cs);
      RepeatCountStep(t, H, PushCount(p, w));
      assert |cs + rest| == Repeat(Count(t, H + 1), PushCount(p, w));
      PushAtJoin(m2, p, w, b, t, H, cs, rest);
      (m2, cs + rest)
  }

  lemma PushAtJoin(m: Manager, p: Prep, w: Cell, b: int, t: int, H: int, cs: seq<Clause>, rest: seq<Clause>)
    requires forall c :: c in cs ==> PushAt(m, p, w, b, t, H, c)
    requires forall c :: c in rest ==> PushAt(m, p, w, b, t + 1, H, c)
    ensures forall c :: c in cs + rest ==> PushAt(m, p, w, b, t, H, c)
  {
  }

  /** `c` is a push clause on `w` for a box in `[lo, boxNum)` at a time in `[1, H]`,
      the box read off its first literal. */
  predicate PushOn(m: Manager, p: Prep, w: Cell, lo: int, H: int, c: Clause)
  {
    |c.lits| >= 1 && lo <= c.lits[0].obj < p.board.BoxNum() && PushAt(m, p, w, c.lits[0].obj, 1, H, c)
  }

  lemma PushOnStable(m: Manager, m': Manager, p: Prep, w: Cell, lo: int, H: int, cs: seq<Clause>)
    requires Extends(m, m') && forall c :: c in cs ==> PushOn(m, p, w, lo, H, c)
    ensures forall c :: c in cs ==> PushOn(m', p, w, lo, H, c)
  {
    forall c | c in cs
      ensures PushOn(m', p, w, lo, H, c)
    {
      PushShapeStable(m, m', p, w, c.lits[0].obj, c.lits[0].time, c);
    }
  }

  /** The clauses of box `b`'s `t` loop all name box `b`. */
  lemma PushTimesOn(m: Manager, p: Prep, w: Cell, b: int, H: int)
    requires Valid(m) && 0 <= b < p.board.BoxNum()
    ensures forall c :: c in PushTimes(m, p, w, b, 1, H).1 ==> PushOn(PushTimes(m, p, w, b, 1, H).0, p, w, b, H, c)
  {
    var (m1, cs) := PushTimes(m, p, w, b, 1, H);
    forall c | c in cs
      ensures PushOn(m1, p, w, b, H, c)
    {
      assert PushAt(m1, p, w, b, 1, H, c);
    }
  }

  /** The `box` loop, from `b` to `boxNum - 1`. */
  function PushBoxes(m: Manager, p: Prep, w: Cell, b: nat, H: int): (r: (Manager, seq<Clause>))
    requires Valid(m)
    ensures Valid(r.0) && Extends(m, r.0)
    ensures |r.1| == Repeat(Count(b, p.board.BoxNum()), Repeat(Count(1, H + 1), PushCount(p, w)))
    ensures forall c :: c in r.1 ==> PushOn(r.0, p, w, b, H, c)
    decreases p.board.BoxNum() - b
  {
    if b >= p.board.BoxNum() then (m, [])
    else
      var (m1, cs) := PushTimes(m, p, w, b, 1, H);
      PushTimesOn(m, p, w, b, H);
      var (m2, rest) := PushBoxes(m1, p, w, b + 1, H);
      ExtendsTransitive(m, m1, m2);
      PushOnStable(m1, m2, p, w, b, H, cs);
      RepeatBoxStep(b, p.board.BoxNum(), Repeat(Count(1, H + 1), PushCount(p, w)));
      assert |cs + rest| == Repeat(Count(b, p.board.BoxNum()), Repeat(Count(1, H + 1), PushCount(p, w)));
      PushOnJoin(m2, p, w, b, H, cs, rest);
      (m2, cs + rest)
  }

  /** The clauses of box `b` followed by those of the boxes after it. */
  lemma PushOnJoin(m: Manager, p: Prep, w: Cell, b: int, H: int, cs: seq<Clause>, rest: seq<Clause>)
    requires forall c :: c in cs ==> PushOn(m, p, w, b, H, c)
    requires forall c :: c in rest ==> PushOn(m, p, w, b + 1, H, c)
    ensures forall c :: c in cs + rest ==> PushOn(m, p, w, b, H, c)
  {
  }

  /** The clauses per cell summed over `cells`: `boxNum * H` steps each. */
  function PushTotal(p: Prep, cells: seq<Cell>, H: int): nat
    decreases |cells|
  {
    if |cells| == 0 then 0
    else CellTotal(p, cells[0], H) + PushTotal(p, cells[1..], H)
  }

  /** The clauses of one cell: `boxNum * H` steps of `PushCount` clauses. */
  function CellTotal(p: Prep, w: Cell, H: int): nat
  {
    Repeat(p.board.BoxNum(), Repeat(Count(1, H + 1), PushCount(p, w)))
  }

  /** In closed form: every box at every time 1 <= t <= H gets `PushCount` clauses. */
  lemma CellTotalIsProduct(p: Prep, w: Cell, H: int)
    ensures CellTotal(p, w, H) == p.board.BoxNum() * (Count(1, H + 1) * PushCount(p, w))
  {
    RepeatIsProduct(Count(1, H + 1), PushCount(p, w));
    RepeatIsProduct(p.board.BoxNum(), Repeat(Count(1, H + 1), PushCount(p, w)));
  }

  /** `c` is a push clause on one of `cells`, the cell read off its first literal. */
  predicate PushIn(m: Manager, p: Prep, cells: seq<Cell>, H: int, c: Clause)
  {
    && |c.lits| >= 1
    && Cell(c.lits[0].row, c.lits[0].col) in cells
    && PushOn(m, p, Cell(c.lits[0].row, c.lits[0].col), 0, H, c)
  }

  lemma PushInStable(m: Manager, m': Manager, p: Prep, cells: seq<Cell>, H: int, cs: seq<Clause>)
    requires Extends(m, m') && forall c :: c in cs ==> PushIn(m, p, cells, H, c)
    ensures forall c :: c in cs ==> PushIn(m', p, cells, H, c)
  {
    forall c | c in cs
      ensures PushIn(m', p, cells, H, c)
    {
      PushShapeStable(m, m', p, Cell(c.lits[0].row, c.lits[0].col), c.lits[0].obj, c.lits[0].time, c);
    }
  }

  /** The clauses of cell `w`'s `box` loop lie on `w`. */
  lemma PushBoxesIn(m: Manager, p: Prep, w: Cell, cells: seq<Cell>, H: int)
    requires Valid(m) && w in cells
    ensures forall c :: c in PushBoxes(m, p, w, 0, H).1 ==> PushIn(PushBoxes(m, p, w, 0, H).0, p, cells, H, c)
  {
    var (m1, cs) := PushBoxes(m, p, w, 0, H);
    forall c | c in cs
      ensures PushIn(m1, p, cells, H, c)
    {
      assert PushOn(m1, p, w, 0, H, c);
      assert Denotes(m1, c.lits[0], Not(BoxAt(w, c.lits[0].obj, c.lits[0].time)));
    }
  }

  /** The walkable-cell loop over `cells`. */
  function PushCells(m: Manager, p: Prep, cells: seq<Cell>, H: int): (r: (Manager, seq<Clause>))
    requires Valid(m)
    ensures Valid(r.0) && Extends(m, r.0)
    ensures |r.1| == PushTotal(p, cells, H)
    ensures forall c :: c in r.1 ==> PushIn(r.0, p, cells, H, c)
    decreases |cells|
  {
    if |cells| == 0 then (m, [])
    else
      var (m1, cs) := PushBoxes(m, p, cells[0], 0, H);
      PushBoxesIn(m, p, cells[0], cells, H);
      var (m2, rest) := PushCells(m1, p, cells[1..], H);
      ExtendsTransitive(m, m1, m2);
      PushInStable(m1, m2, p, cells, H, cs);
      PushInWider(m2, p, cells, H, rest);
      (m2, cs + rest)
  }

  lemma PushInWider(m: Manager, p: Prep, cells: seq<Cell>, H: int, cs: seq<Clause>)
    requires |cells| > 0 && forall c :: c in cs ==> PushIn(m, p, cells[1..], H, c)
    ensures forall c :: c in cs ==> PushIn(m, p, cells, H, c)
  {
    forall c | c in cs
      ensures PushIn(m, p, cells, H, c)
    {
      assert Cell(c.lits[0].row, c.lits[0].col) in cells[1..];
    }
  }

  /** `BoxPushMovementConstraints` with step limit `H`: for every live walkable cell,
      every box and every time in `[1, H]`, `3^k` clauses when `k` push triples
      apply, each a push clause for that cell, box and time. */
  function BoxPushMovement(m: Manager, p: Prep, H: int): (r: (Manager, seq<Clause>))
    requires Valid(m) && p.Valid()
    ensures Valid(r.0) && Extends(m, r.0)
    ensures |r.1| == PushTotal(p, BoxCells(p), H)
    ensures forall c :: c in r.1 ==> PushIn(r.0, p, BoxCells(p), H, c)
  {
    PushCells(m, p, BoxCells(p), H)
  }
}
