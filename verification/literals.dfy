/** Literals, clauses and the literal managers of `SokobanSolver`.

    A `Lit` carries the tuple it stands for and its variable id `x`; a negative `x`
    is the negated literal.  `playerLitManager` and `boxLitManager` memoise one
    literal per `createKey` string, `LitDictionary` maps every id back to the
    literal it was created as, and `LitIndex` is the one counter both managers
    draw from.  The managers' stored `pair<int, Lit>` repeats the id in its first
    component; the model stores the literal only. */
module Literals {
  import opened Boards
  import opened Keys

  /** `class Lit`: coordinates, entity index, time step and the id `x`.  The
      `identity` field is not part of it: the copy constructor drops it, so every
      copy carries garbage there; the kind is read from the dictionary instead. */
  datatype Lit = Lit(row: int, col: int, obj: int, time: int, x: int)

  /** `operator~`: the same tuple with the id negated. */
  function Negate(l: Lit): (n: Lit)
    ensures n.x == -l.x
    ensures (n.row, n.col, n.obj, n.time) == (l.row, l.col, l.obj, l.time)
  {
    l.(x := -l.x)
  }

  lemma DoubleNegation(l: Lit)
    ensures Negate(Negate(l)) == l
  {
  }

  /** `operator==`, `operator<` and `operator>`: comparisons of the id alone. */
  predicate Same(a: Lit, b: Lit)
  {
    a.x == b.x
  }

  predicate Less(a: Lit, b: Lit)
  {
    a.x < b.x
  }

  predicate Greater(a: Lit, b: Lit)
  {
    a.x > b.x
  }

  /** The comparisons form a strict total order on ids: exactly one of them holds,
      and literals for different tuples with the same id count as the same. */
  lemma Trichotomy(a: Lit, b: Lit)
    ensures (Less(a, b) || Same(a, b) || Greater(a, b))
    ensures !(Less(a, b) && Same(a, b)) && !(Less(a, b) && Greater(a, b)) && !(Same(a, b) && Greater(a, b))
    ensures Less(a, b) <==> Greater(b, a)
  {
  }

  const SizeMod: int := 0x1_0000_0000_0000_0000

  /** `LitHash`: the id converted to `size_t`, which wraps negative ids modulo 2^64. */
  function Hash(l: Lit): (h: int)
    ensures 0 <= h < SizeMod
    ensures 0 <= l.x < SizeMod ==> h == l.x
    ensures l.x < 0 && -SizeMod <= l.x ==> h == SizeMod + l.x
  {
    l.x % SizeMod
  }

  /** Literals that compare equal hash equally, as `unordered_map` requires. */
  lemma HashRespectsSame(a: Lit, b: Lit)
    requires Same(a, b)
    ensures Hash(a) == Hash(b)
  {
  }

  /** `class Clause` with `AddLit`. */
  datatype Clause = Clause(lits: seq<Lit>)
  {
    /** `AddLit`: appends, leaving the earlier literals in place. */
    function AddLit(l: Lit): (c: Clause)
      ensures |c.lits| == |lits| + 1
      ensures c.lits[|lits|] == l
      ensures c.lits[..|lits|] == lits
    {
      Clause(lits + [l])
    }
  }

  /** Which manager a literal comes from (`identity` 1 and 0). */
  datatype Kind = Player | Box

  /** The tuple a manager key spells: (row, col, entity, time). */
  datatype Key = Key(row: int, col: int, obj: int, time: int)

  function KeyOf(l: Lit): Key
  {
    Key(l.row, l.col, l.obj, l.time)
  }

  /** The string a key is stored under in the source (`createKey`). */
  function KeyString(k: Key): string
  {
    CreateKey(k.row, k.col, k.obj, k.time)
  }

  /** A `LitDictionary` value: the literal as created, with the manager it came from. */
  datatype Entry = Entry(lit: Lit, kind: Kind)

  /** The allocation state: both managers, the dictionary and `LitIndex`.  The
      managers are indexed by the tuple; `StringView` rebuilds the source's
      string-keyed maps from them. */
  datatype Manager = Manager(players: map<Key, Lit>, boxes: map<Key, Lit>,
                             dict: map<int, Entry>, next: int)
  {
    function Table(kind: Kind): map<Key, Lit>
    {
      match kind
      case Player => players
      case Box => boxes
    }
  }

  /** A manager as the source holds it: keyed by `createKey` strings.  Building it
      is well defined because `createKey` never maps two tuples to one string. */
  function StringView(t: map<Key, Lit>): (v: map<string, Lit>)
    ensures forall k :: k in t ==> KeyString(k) in v && v[KeyString(k)] == t[k]
    ensures forall s :: s in v ==> exists k :: k in t && s == KeyString(k)
  {
    assert forall k1, k2 :: k1 in t && k2 in t && KeyString(k1) == KeyString(k2) ==> k1 == k2 by {
      forall k1, k2 | k1 in t && k2 in t && KeyString(k1) == KeyString(k2)
        ensures k1 == k2
      {
        KeyStringInjective(k1, k2);
      }
    }
    map k | k in t :: KeyString(k) := t[k]
  }

  /** Distinct tuples have distinct key strings. */
  lemma KeyStringInjective(k1: Key, k2: Key)
    requires KeyString(k1) == KeyString(k2)
    ensures k1 == k2
  {
    CreateKeyInjective(k1.row, k1.col, k1.obj, k1.time, k2.row, k2.col, k2.obj, k2.time);
  }

  /** Looking a tuple up by its string in the source's map and by the tuple in the
      model's map gives the same answer: present in both or in neither, and the same
      literal. */
  lemma StringLookupAgrees(t: map<Key, Lit>, k: Key)
    ensures KeyString(k) in StringView(t) <==> k in t
    ensures k in t ==> StringView(t)[KeyString(k)] == t[k]
  {
    if KeyString(k) in StringView(t) {
      var k' :| k' in t && KeyString(k) == KeyString(k');
      CreateKeyInjective(k.row, k.col, k.obj, k.time, k'.row, k'.col, k'.obj, k'.time);
    }
  }

  /** The state right after the constructor: empty managers, `LitIndex = 1`. */
  const Initial := Manager(map[], map[], map[], 1)

  /** Every stored literal carries its own key and is the dictionary entry of its id. */
  ghost predicate TableValid(m: Manager, kind: Kind)
  {
    forall k :: k in m.Table(kind) ==>
      && KeyOf(m.Table(kind)[k]) == k
      && m.Table(kind)[k].x in m.dict
      && m.dict[m.Table(kind)[k].x] == Entry(m.Table(kind)[k], kind)
  }

  /** The manager invariant: the ids handed out are exactly `1 .. LitIndex-1`, each
      dictionary entry carries its own id and is what its manager stores under its
      key, and both managers agree with the dictionary. */
  ghost predicate Valid(m: Manager)
  {
    && m.next >= 1
    && (forall i :: i in m.dict <==> 1 <= i < m.next)
    && (forall i :: i in m.dict ==>
          && m.dict[i].lit.x == i
          && KeyOf(m.dict[i].lit) in m.Table(m.dict[i].kind)
          && m.Table(m.dict[i].kind)[KeyOf(m.dict[i].lit)] == m.dict[i].lit)
    && TableValid(m, Player)
    && TableValid(m, Box)
  }

  lemma InitialValid()
    ensures Valid(Initial)
  {
  }

  /** `m'` keeps everything `m` allocated. */
  ghost predicate Extends(m: Manager, m': Manager)
  {
    && m.next <= m'.next
    && (forall i :: i in m.dict ==> i in m'.dict && m'.dict[i] == m.dict[i])
    && (forall k :: k in m.players ==> k in m'.players && m'.players[k] == m.players[k])
    && (forall k :: k in m.boxes ==> k in m'.boxes && m'.boxes[k] == m.boxes[k])
  }

  lemma ExtendsTransitive(m1: Manager, m2: Manager, m3: Manager)
    requires Extends(m1, m2) && Extends(m2, m3)
    ensures Extends(m1, m3)
  {
  }

  /** `AddPlayerLiteral` (kind `Player`) and `AddBoxLiteral` (kind `Box`): the
      memoised literal when the tuple is known, otherwise a new literal with id
      `LitIndex`, stored in the manager and the dictionary, after which the counter
      moves up by one. */
  function AddLiteral(m: Manager, kind: Kind, row: int, col: int, obj: int, time: int): (r: (Manager, Lit))
    requires Valid(m)
    ensures Valid(r.0) && Extends(m, r.0)
    ensures KeyOf(r.1) == Key(row, col, obj, time)
    ensures 1 <= r.1.x < r.0.next
    ensures r.0.dict[r.1.x] == Entry(r.1, kind)
    ensures Key(row, col, obj, time) in m.Table(kind) ==> r.0 == m
    ensures Key(row, col, obj, time) !in m.Table(kind) ==>
      r.1.x == m.next && r.0.next == m.next + 1 && m.next !in m.dict
  {
    var key := Key(row, col, obj, time);
    if key in m.Table(kind) then
      assert TableValid(m, kind);
      (m, m.Table(kind)[key])
    else
      var l := Lit(row, col, obj, time, m.next);
      var m' := Insert(m, kind, l);
      AddKeepsValid(m, kind, l);
      (m', l)
  }

  /** The `else` branch of the allocators: store `l` under its key and in the
      dictionary, and advance the counter. */
  function Insert(m: Manager, kind: Kind, l: Lit): (m': Manager)
  {
    var dict := m.dict[l.x := Entry(l, kind)];
    match kind
    case Player => Manager(m.players[KeyOf(l) := l], m.boxes, dict, m.next + 1)
    case Box => Manager(m.players, m.boxes[KeyOf(l) := l], dict, m.next + 1)
  }

  lemma AddKeepsValid(m: Manager, kind: Kind, l: Lit)
    requires Valid(m)
    requires KeyOf(l) !in m.Table(kind) && l.x == m.next
    ensures Valid(Insert(m, kind, l)) && Extends(m, Insert(m, kind, l))
  {
    InsertKeepsDict(m, kind, l);
    InsertKeepsTable(m, kind, l, Player);
    InsertKeepsTable(m, kind, l, Box);
  }

  lemma InsertKeepsDict(m: Manager, kind: Kind, l: Lit)
    requires Valid(m)
    requires KeyOf(l) !in m.Table(kind) && l.x == m.next
    ensures var m' := Insert(m, kind, l);
      forall i :: i in m'.dict ==>
          && m'.dict[i].lit.x == i
          && KeyOf(m'.dict[i].lit) in m'.Table(m'.dict[i].kind)
          && m'.Table(m'.dict[i].kind)[KeyOf(m'.dict[i].lit)] == m'.dict[i].lit
  {
    var m' := Insert(m, kind, l);
    forall i | i in m'.dict
      ensures m'.dict[i].lit.x == i
      ensures KeyOf(m'.dict[i].lit) in m'.Table(m'.dict[i].kind)
      ensures m'.Table(m'.dict[i].kind)[KeyOf(m'.dict[i].lit)] == m'.dict[i].lit
    {
      if i != m.next {
        var e := m.dict[i];
        if e.kind == kind {
          assert KeyOf(e.lit) != KeyOf(l);
        }
      }
    }
  }

  lemma InsertKeepsTable(m: Manager, kind: Kind, l: Lit, which: Kind)
    requires Valid(m)
    requires KeyOf(l) !in m.Table(kind) && l.x == m.next
    ensures TableValid(Insert(m, kind, l), which)
  {
    var m' := Insert(m, kind, l);
    forall k | k in m'.Table(which)
      ensures KeyOf(m'.Table(which)[k]) == k && m'.Table(which)[k].x in m'.dict
      ensures m'.dict[m'.Table(which)[k].x] == Entry(m'.Table(which)[k], which)
    {
      if !(kind == which && k == KeyOf(l)) {
        assert TableValid(m, which);
        assert m.Table(which)[k].x < m.next;
      }
    }
  }

  /** A symbolic literal request: which manager, the tuple, and the polarity with
      which the clause uses it (`~` when negative). */
  datatype Req = Req(kind: Kind, cell: Cell, obj: int, time: int, positive: bool)

  function Abs(x: int): nat
  {
    if x < 0 then -x else x
  }

  /** `l` is the literal of request `q` in state `m`: its id names a dictionary entry
      created for `q`'s tuple by `q`'s manager, and its sign is `q`'s polarity. */
  predicate Denotes(m: Manager, l: Lit, q: Req)
  {
    && l.x != 0
    && (l.x > 0 <==> q.positive)
    && (l.row, l.col, l.obj, l.time) == (q.cell.row, q.cell.col, q.obj, q.time)
    && Abs(l.x) in m.dict
    && m.dict[Abs(l.x)] == Entry(Lit(q.cell.row, q.cell.col, q.obj, q.time, Abs(l.x)), q.kind)
  }

  /** Two denoted literals share a variable exactly when the requests name the same
      tuple in the same manager: ids are never shared between tuples or kinds. */
  lemma SameVariableIffSameTuple(m: Manager, l1: Lit, q1: Req, l2: Lit, q2: Req)
    requires Valid(m) && Denotes(m, l1, q1) && Denotes(m, l2, q2)
    ensures Abs(l1.x) == Abs(l2.x) <==>
      (q1.kind, q1.cell, q1.obj, q1.time) == (q2.kind, q2.cell, q2.obj, q2.time)
  {
    var i, j := Abs(l1.x), Abs(l2.x);
    if (q1.kind, q1.cell, q1.obj, q1.time) == (q2.kind, q2.cell, q2.obj, q2.time) {
      var key := KeyOf(m.dict[i].lit);
      assert key == KeyOf(m.dict[j].lit);
      assert m.Table(q1.kind)[key] == m.dict[i].lit && m.Table(q1.kind)[key] == m.dict[j].lit;
    }
  }

  /** Later allocation never changes what a literal denotes. */
  lemma DenotesStable(m: Manager, m': Manager, l: Lit, q: Req)
    requires Extends(m, m') && Denotes(m, l, q)
    ensures Denotes(m', l, q)
  {
  }

  /** One `AddLit(AddXLiteral(...))` or `AddLit(~AddXLiteral(...))` argument. */
  function Realize(m: Manager, q: Req): (r: (Manager, Lit))
    requires Valid(m)
    ensures Valid(r.0) && Extends(m, r.0)
    ensures Denotes(r.0, r.1, q)
  {
    var (m', l) := AddLiteral(m, q.kind, q.cell.row, q.cell.col, q.obj, q.time);
    (m', if q.positive then l else Negate(l))
  }

  /** A clause built by `AddLit` calls in request order. */
  function RealizeClause(m: Manager, qs: seq<Req>): (r: (Manager, Clause))
    requires Valid(m)
    ensures Valid(r.0) && Extends(m, r.0)
    ensures |r.1.lits| == |qs|
    ensures forall i :: 0 <= i < |qs| ==> Denotes(r.0, r.1.lits[i], qs[i])
    decreases |qs|
  {
    if |qs| == 0 then (m, Clause([]))
    else
      var n := |qs| - 1;
      var (m1, c) := RealizeClause(m, qs[..n]);
      var (m2, l) := Realize(m1, qs[n]);
      var c' := c.AddLit(l);
      ClauseStep(m1, m2, c, l, qs);
      (m2, c')
  }

  /** Appending the literal of the last request keeps the earlier ones denoting. */
  lemma ClauseStep(m: Manager, m': Manager, c: Clause, l: Lit, qs: seq<Req>)
    requires |qs| >= 1 && |c.lits| == |qs| - 1
    requires Extends(m, m') && Denotes(m', l, qs[|qs| - 1])
    requires forall i :: 0 <= i < |qs| - 1 ==> Denotes(m, c.lits[i], qs[..|qs| - 1][i])
    ensures forall i :: 0 <= i < |qs| ==> Denotes(m', c.AddLit(l).lits[i], qs[i])
  {
    forall i | 0 <= i < |qs|
      ensures Denotes(m', c.AddLit(l).lits[i], qs[i])
    {
      if i < |qs| - 1 {
        assert qs[..|qs| - 1][i] == qs[i];
        DenotesStable(m, m', c.lits[i], qs[i]);
      }
    }
  }

  /** A sequence of clauses, realised one after the other (`AddClause` order). */
  function RealizeAll(m: Manager, cls: seq<seq<Req>>): (r: (Manager, seq<Clause>))
    requires Valid(m)
    ensures Valid(r.0) && Extends(m, r.0)
    ensures |r.1| == |cls|
    ensures forall i :: 0 <= i < |cls| ==> |r.1[i].lits| == |cls[i]|
    ensures forall i, j :: 0 <= i < |cls| && 0 <= j < |cls[i]| ==> Denotes(r.0, r.1[i].lits[j], cls[i][j])
    decreases |cls|
  {
    if |cls| == 0 then (m, [])
    else
      var n := |cls| - 1;
      var (m1, out) := RealizeAll(m, cls[..n]);
      var (m2, c) := RealizeClause(m1, cls[n]);
      RealizeAllStep(m1, m2, out, c, cls);
      (m2, out + [c])
  }

  /** Appending the clause of the last request clause keeps the earlier ones denoting. */
  lemma RealizeAllStep(m: Manager, m': Manager, out: seq<Clause>, c: Clause, cls: seq<seq<Req>>)
    requires |cls| >= 1 && |out| == |cls| - 1 && Extends(m, m')
    requires forall i :: 0 <= i < |out| ==> |out[i].lits| == |cls[..|out|][i]|
    requires forall i, j :: 0 <= i < |out| && 0 <= j < |cls[..|out|][i]| ==> Denotes(m, out[i].lits[j], cls[..|out|][i][j])
    requires |c.lits| == |cls[|out|]| && forall j :: 0 <= j < |cls[|out|]| ==> Denotes(m', c.lits[j], cls[|out|][j])
    ensures forall i :: 0 <= i < |cls| ==> |(out + [c])[i].lits| == |cls[i]|
    ensures forall i, j :: 0 <= i < |cls| && 0 <= j < |cls[i]| ==> Denotes(m', (out + [c])[i].lits[j], cls[i][j])
  {
    var n := |out|;
    forall i | 0 <= i < |cls|
      ensures |(out + [c])[i].lits| == |cls[i]|
      ensures forall j :: 0 <= j < |cls[i]| ==> Denotes(m', (out + [c])[i].lits[j], cls[i][j])
    {
      if i < n {
        assert cls[..n][i] == cls[i];
        assert (out + [c])[i] == out[i];
        forall j | 0 <= j < |cls[i]|
          ensures Denotes(m', out[i].lits[j], cls[i][j])
        {
          DenotesStable(m, m', out[i].lits[j], cls[i][j]);
        }
      }
    }
  }
}
