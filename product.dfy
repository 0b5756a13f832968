/** `intersect`: one pass of the product construction that folds the
    lookaround assertions whose direction matches the pass into the graph.
    A product state pairs a node `a` of the input graph with the set `b` of
    live states of the assertion bodies met so far; it is memoised under the
    key `a,b1,b2,...` (`biGet`), which identifies the pair (see
    `Base.ProductKeyInjective`), so the memo is keyed by the pair itself. */
module Product {
  import opened Base
  import opened Nfa
  import Dfa

  datatype PState = PState(a: nat, b: set<int>)

  /** A move the pass builds from a product state: label, assertion, target. */
  datatype PArc = PArc(at: Option<char>, look: Option<Look>, target: PState)

  /** The assertion on `tr` is one this pass turns into a plain epsilon move. */
  predicate Merges(tr: Transition, rev: bool) {
    tr.look.Some? && tr.look.value.rev == rev
  }

  /** The union of the transition tables of the bodies this pass merges. */
  ghost function Table(ts: seq<Transition>, rev: bool): map<int, map<char, int>>
    decreases |ts|
  {
    if |ts| == 0 then map[]
    else
      var rest := Table(ts[..|ts| - 1], rev);
      var last := ts[|ts| - 1];
      if Merges(last, rev) then rest + last.look.value.body.edges else rest
  }

  /** The union of the accept sets of the bodies this pass merges. */
  ghost function Accepted(ts: seq<Transition>, rev: bool): set<int>
    decreases |ts|
  {
    if |ts| == 0 then {}
    else
      var rest := Accepted(ts[..|ts| - 1], rev);
      var last := ts[|ts| - 1];
      if Merges(last, rev) then rest + last.look.value.body.accept else rest
  }

  lemma LooksPrefix(ts: seq<Transition>, n: nat)
    requires n <= |ts|
    ensures Looks(ts[..n]) <= Looks(ts)
  {
    forall l | l in Looks(ts[..n]) ensures l in Looks(ts) {
      var i :| 0 <= i < n && ts[..n][i].look.Some? && ts[..n][i].look.value == l;
      assert ts[i] == ts[..n][i];
    }
  }

  lemma {:induction false} AcceptedWitness(ts: seq<Transition>, rev: bool, k: int)
    requires k in Accepted(ts, rev)
    ensures exists i | 0 <= i < |ts| :: Merges(ts[i], rev) && k in ts[i].look.value.body.accept
    decreases |ts|
  {
    var rest := ts[..|ts| - 1];
    var last := ts[|ts| - 1];
    if !(Merges(last, rev) && k in last.look.value.body.accept) {
      AcceptedWitness(rest, rev, k);
      var i :| 0 <= i < |rest| && Merges(rest[i], rev) && k in rest[i].look.value.body.accept;
      assert ts[i] == rest[i];
    }
  }

  /** Every merged body's states keep, in the union, their own transitions and
      their own acceptance. */
  lemma {:induction false} TableHasBody(ts: seq<Transition>, rev: bool, i: nat, k: int)
    requires Coherent(Looks(ts)) && i < |ts| && Merges(ts[i], rev)
    requires k in ts[i].look.value.body.edges
    ensures k in Table(ts, rev) && Table(ts, rev)[k] == ts[i].look.value.body.edges[k]
    ensures k in Accepted(ts, rev) <==> k in ts[i].look.value.body.accept
    decreases |ts|
  {
    var body := ts[i].look.value.body;
    var rest, last := ts[..|ts| - 1], ts[|ts| - 1];
    assert ts[i].look.value in Looks(ts) && last.look.Some? ==> last.look.value in Looks(ts);
    LooksPrefix(ts, |ts| - 1);
    if i == |ts| - 1 {
      if k in Accepted(rest, rev) {
        AcceptedWitness(rest, rev, k);
        var j :| 0 <= j < |rest| && Merges(rest[j], rev) && k in rest[j].look.value.body.accept;
        assert rest[j].look.value in Looks(ts) by { assert ts[j] == rest[j]; }
        assert Dfa.Valid(rest[j].look.value.body);
      }
    } else {
      assert ts[i] == rest[i];
      TableHasBody(rest, rev, i, k);
      if Merges(last, rev) {
        var lb := last.look.value.body;
        if k in lb.edges || k in lb.accept {
          assert lb == body;
        }
      }
    }
  }

  /** The union of the merged tables is closed: targets are merged states. */
  lemma {:induction false} TableClosed(ts: seq<Transition>, rev: bool)
    requires Coherent(Looks(ts))
    ensures forall s, c | s in Table(ts, rev) && c in Table(ts, rev)[s] :: Table(ts, rev)[s][c] in Table(ts, rev)
    decreases |ts|
  {
    if |ts| > 0 {
      var rest, last := ts[..|ts| - 1], ts[|ts| - 1];
      LooksPrefix(ts, |ts| - 1);
      TableClosed(rest, rev);
      if Merges(last, rev) {
        assert last.look.value in Looks(ts);
      }
    }
  }

  /** `b` advanced by character `c` through the table `g`. */
  function Advanced(g: map<int, map<char, int>>, b: set<int>, c: char): set<int> {
    set s | s in b && s in g && c in g[s] :: g[s][c]
  }

  /** Every live state has a move on `c`. */
  predicate AllMove(g: map<int, map<char, int>>, b: set<int>, c: char) {
    forall s | s in b :: s in g && c in g[s]
  }

  /** The moves the pass builds for one move `arc` of the input graph from a
      product state with live set `b`: an epsilon move carrying an assertion of
      this pass becomes a plain epsilon move that also starts the body; any other
      epsilon move is kept with its assertion; a character move is kept when
      every live state can follow it, and advances them all. */
  function StepArc(arc: Arc, b: set<int>, rev: bool, g: map<int, map<char, int>>): seq<PArc> {
    if arc.at.None? then
      if arc.look.Some? && arc.look.value.rev == rev then
        [PArc(None, None, PState(arc.to, b + {arc.look.value.body.initial}))]
      else
        [PArc(None, arc.look, PState(arc.to, b))]
    else if AllMove(g, b, arc.at.value) then
      [PArc(arc.at, None, PState(arc.to, Advanced(g, b, arc.at.value)))]
    else
      []
  }

  /** The moves built for the moves `arcs`, in order. */
  function ProductArcs(arcs: seq<Arc>, b: set<int>, rev: bool, g: map<int, map<char, int>>): seq<PArc>
    decreases |arcs|
  {
    if |arcs| == 0 then []
    else ProductArcs(arcs[..|arcs| - 1], b, rev, g) + StepArc(arcs[|arcs| - 1], b, rev, g)
  }

  /** What one pass is given: the lists `d0` it follows in the input graph of
      `n0` states, the records `t0`, its direction and the node `aEnd` where
      it ends. */
  datatype Ctx = Ctx(d0: seq<seq<nat>>, t0: seq<Transition>, n0: nat, rev: bool, aEnd: nat)

  ghost predicate CtxOk(c: Ctx) {
    && |c.d0| == c.n0 && c.aEnd < c.n0
    && (forall x, i | 0 <= x < |c.d0| && 0 <= i < |c.d0[x]| :: c.d0[x][i] < |c.t0|)
    && (forall j | 0 <= j < |c.t0| :: c.t0[j].from < c.n0 && c.t0[j].to < c.n0)
    && Coherent(Looks(c.t0))
  }

  /** The moves the product state `p` must get. */
  ghost function Expected(c: Ctx, p: PState): seq<PArc>
    requires CtxOk(c) && p.a < c.n0
  {
    ProductArcs(ArcsOf(c.d0[p.a], c.t0, c.rev), p.b, c.rev, Table(c.t0, c.rev))
  }

  /** A product state is accepting when its node is where the pass ends and
      every live body state is accepting. */
  ghost predicate IsAccepting(c: Ctx, p: PState) {
    p.a == c.aEnd && p.b <= Accepted(c.t0, c.rev)
  }

  /** The list `l` holds, in order, the moves `exp`, each leading to the
      state memoised for its target. */
  ghost predicate RowBuilt(exp: seq<PArc>, l: seq<nat>, t: seq<Transition>, memo: map<PState, nat>, rev: bool) {
    && |l| == |exp|
    && forall i | 0 <= i < |l| ::
      && l[i] < |t| && exp[i].target in memo
      && ArcOf(t[l[i]], rev) == Arc(exp[i].at, exp[i].look, memo[exp[i].target])
  }

  lemma RowBuiltKept(exp: seq<PArc>, l: seq<nat>, t: seq<Transition>, memo: map<PState, nat>, rev: bool,
                     t': seq<Transition>, memo': map<PState, nat>)
    requires RowBuilt(exp, l, t, memo, rev) && |t'| >= |t| && t'[..|t|] == t && Extends(memo, memo')
    ensures RowBuilt(exp, l, t', memo', rev)
  {
    forall i | 0 <= i < |l| ensures t'[l[i]] == t[l[i]] {
      assert t'[..|t|][l[i]] == t[l[i]];
    }
  }

  /** The merged tables `m`, `acc` agree with the union of all bodies of the
      pass, and every body is merged whole or not at all. */
  ghost predicate TablesOk(c: Ctx, m: map<int, map<char, int>>, acc: set<int>) {
    && Extends(m, Table(c.t0, c.rev))
    && acc <= m.Keys
    && (forall k | k in m :: k in acc <==> k in Accepted(c.t0, c.rev))
    && (forall s, ch | s in m && ch in m[s] :: m[s][ch] in m)
    && (forall i | 0 <= i < |c.t0| && Merges(c.t0[i], c.rev) ::
          c.t0[i].look.value.body.edges.Keys <= m.Keys || c.t0[i].look.value.body.edges.Keys !! m.Keys)
  }

  lemma TablesStart(c: Ctx)
    ensures TablesOk(c, map[], {})
  {
  }

  /** Merging a body whose initial state is new keeps the tables right. */
  lemma MergeKeepsTables(c: Ctx, m: map<int, map<char, int>>, acc: set<int>, i: nat)
    requires CtxOk(c) && TablesOk(c, m, acc) && i < |c.t0| && Merges(c.t0[i], c.rev)
    requires c.t0[i].look.value.body.initial !in m
    ensures var body := c.t0[i].look.value.body;
      && TablesOk(c, m + body.edges, acc + body.accept)
      && body.initial in m + body.edges && m.Keys <= (m + body.edges).Keys
  {
    var body := c.t0[i].look.value.body;
    assert body == c.t0[i].look.value.body;
    assert c.t0[i].look.value in Looks(c.t0);
    assert Dfa.Valid(body);
    assert body.edges.Keys !! m.Keys;
    var m', acc' := m + body.edges, acc + body.accept;
    forall k | k in body.edges
      ensures k in Table(c.t0, c.rev) && Table(c.t0, c.rev)[k] == body.edges[k]
      ensures k in Accepted(c.t0, c.rev) <==> k in body.accept
    {
      TableHasBody(c.t0, c.rev, i, k);
    }
    forall j | 0 <= j < |c.t0| && Merges(c.t0[j], c.rev)
      ensures c.t0[j].look.value.body.edges.Keys <= m'.Keys || c.t0[j].look.value.body.edges.Keys !! m'.Keys
    {
      assert c.t0[j].look.value in Looks(c.t0);
    }
  }

  /** With the tables right, a live set whose states are merged is accepting
      by the shared accept set exactly when it is by the bodies. */
  lemma AcceptingByTables(c: Ctx, m: map<int, map<char, int>>, acc: set<int>, p: PState)
    requires TablesOk(c, m, acc) && p.b <= m.Keys
    ensures (p.a == c.aEnd && p.b <= acc) <==> IsAccepting(c, p)
  {
    assert p.b <= acc <==> p.b <= Accepted(c.t0, c.rev) by {
      if p.b <= acc {
        forall k | k in p.b ensures k in Accepted(c.t0, c.rev) { assert k in m; }
      }
      if p.b <= Accepted(c.t0, c.rev) {
        forall k | k in p.b ensures k in acc { assert k in m; }
      }
    }
  }

  /** `b` advanced by a character through the merged tables is what the union
      of all bodies gives. */
  lemma AdvanceByTables(c: Ctx, m: map<int, map<char, int>>, acc: set<int>, b: set<int>, ch: char)
    requires TablesOk(c, m, acc) && b <= m.Keys
    ensures AllMove(m, b, ch) <==> AllMove(Table(c.t0, c.rev), b, ch)
    ensures Advanced(m, b, ch) == Advanced(Table(c.t0, c.rev), b, ch)
    ensures AllMove(m, b, ch) ==> Advanced(m, b, ch) <= m.Keys
  {
  }

  /** The inner loop over `b` for a character move: `None` as soon as a live
      state has no move on `c` (`continue edgeSearch`), otherwise the advanced set. */
  method Advance(m: map<int, map<char, int>>, b: set<int>, c: char) returns (r: Option<set<int>>)
    requires b <= m.Keys
    ensures r.None? <==> !AllMove(m, b, c)
    ensures r.Some? ==> r.value == Advanced(m, b, c)
  {
    var newB: set<int> := {};
    var rest := b;
    while rest != {}
      invariant rest <= b
      invariant AllMove(m, b - rest, c) && newB == Advanced(m, b - rest, c)
      decreases |rest|
    {
      Inhabited(rest);
      var state :| state in rest;
      if c !in m[state] {
        return None;
      }
      newB := newB + {m[state][c]};
      rest := rest - {state};
    }
    assert b - rest == b;
    r := Some(newB);
  }

  /** `m'` is `m` overwritten by `e` on the keys `done`. */
  ghost predicate MergedOn(m: map<int, map<char, int>>, e: map<int, map<char, int>>, done: set<int>, m': map<int, map<char, int>>) {
    && done <= e.Keys
    && (forall k :: k in m' <==> k in m || k in done)
    && (forall k | k in m' :: m'[k] == if k in done then e[k] else m[k])
  }

  lemma MergedOnStep(m: map<int, map<char, int>>, e: map<int, map<char, int>>, done: set<int>, m': map<int, map<char, int>>, k: int)
    requires MergedOn(m, e, done, m') && k in e
    ensures MergedOn(m, e, done + {k}, m'[k := e[k]])
  {
  }

  lemma MergedOnAll(m: map<int, map<char, int>>, e: map<int, map<char, int>>, m': map<int, map<char, int>>)
    requires MergedOn(m, e, e.Keys, m')
    ensures m' == m + e
  {
    forall k ensures k in m'.Keys <==> k in (m + e).Keys {
      assert k in m' <==> k in m || k in e.Keys;
    }
    assert m'.Keys == (m + e).Keys;
    forall k | k in m' ensures m'[k] == (m + e)[k] {
      if k in e {
        assert m'[k] == e[k];
      } else {
        assert m'[k] == m[k];
      }
    }
  }

  /** Copying a body's transitions into the shared table. */
  method MergeEdges(m: map<int, map<char, int>>, body: Dfa.Dfa) returns (m': map<int, map<char, int>>)
    ensures m' == m + body.edges
  {
    m' := m;
    var keys := body.edges.Keys;
    while keys != {}
      invariant keys <= body.edges.Keys
      invariant MergedOn(m, body.edges, body.edges.Keys - keys, m')
      decreases |keys|
    {
      Inhabited(keys);
      var k :| k in keys;
      MergedOnStep(m, body.edges, body.edges.Keys - keys, m', k);
      assert body.edges.Keys - (keys - {k}) == body.edges.Keys - keys + {k};
      m' := m'[k := body.edges[k]];
      keys := keys - {k};
    }
    assert body.edges.Keys - keys == body.edges.Keys;
    MergedOnAll(m, body.edges, m');
  }

  /** Copying a body's accept set into the shared one. */
  method MergeAccept(acc: set<int>, body: Dfa.Dfa) returns (acc': set<int>)
    ensures acc' == acc + body.accept
  {
    acc' := acc;
    var rest := body.accept;
    while rest != {}
      invariant rest <= body.accept && acc' == acc + (body.accept - rest)
      decreases |rest|
    {
      Inhabited(rest);
      var v :| v in rest;
      acc' := acc' + {v};
      rest := rest - {v};
    }
  }

  /** The lists `d` (in the pass's direction) and records `t` extend the input. */
  ghost predicate Prefixed(c: Ctx, d: seq<seq<nat>>, t: seq<Transition>) {
    |d| >= c.n0 && d[..c.n0] == c.d0 && |t| >= |c.t0| && t[..|c.t0|] == c.t0
  }

  /** Every memoised product state pairs an input node with merged body states
      and has its own fresh node. */
  ghost predicate MemoOk(c: Ctx, d: seq<seq<nat>>, memo: map<PState, nat>, m: map<int, map<char, int>>) {
    && (forall p | p in memo :: p.a < c.n0 && c.n0 <= memo[p] < |d| && p.b <= m.Keys)
    && (forall p, q | p in memo && q in memo && p != q :: memo[p] != memo[q])
  }

  /** Frontier states are memoised, have no moves yet, are not being
      processed, occur once, and are not yet marked accepting. */
  ghost predicate FrontierOk(d: seq<seq<nat>>, memo: map<PState, nat>, frontier: seq<PState>, busy: set<PState>, ends: seq<nat>) {
    && (forall k | 0 <= k < |frontier| ::
          frontier[k] in memo && memo[frontier[k]] < |d| && d[memo[frontier[k]]] == []
          && frontier[k] !in busy && memo[frontier[k]] !in ends)
    && (forall k1, k2 | 0 <= k1 < k2 < |frontier| :: frontier[k1] != frontier[k2])
    && (forall k1, k2 | 0 <= k1 < k2 < |ends| :: ends[k1] != ends[k2])
    && (forall k | 0 <= k < |ends| :: ends[k] < |d|)
  }

  /** Every processed product state has all its moves, and is marked
      accepting exactly when it accepts. */
  ghost predicate RowsOk(c: Ctx, d: seq<seq<nat>>, t: seq<Transition>, memo: map<PState, nat>,
                         frontier: seq<PState>, busy: set<PState>, ends: seq<nat>)
    requires CtxOk(c)
  {
    forall p | p in memo && p.a < c.n0 && memo[p] < |d| && p !in frontier && p !in busy ::
      RowBuilt(Expected(c, p), d[memo[p]], t, memo, c.rev) && (memo[p] in ends <==> IsAccepting(c, p))
  }

  /** The records the pass adds carry no assertion, or one of the input's
      assertions of the other direction. */
  ghost predicate LooksOk(c: Ctx, t: seq<Transition>) {
    forall j | |c.t0| <= j < |t| :: t[j].look.None? || (t[j].look.value in Looks(c.t0) && t[j].look.value.rev != c.rev)
  }

  ghost predicate PWork(c: Ctx, d: seq<seq<nat>>, t: seq<Transition>, memo: map<PState, nat>,
                        frontier: seq<PState>, busy: set<PState>, ends: seq<nat>,
                        m: map<int, map<char, int>>, acc: set<int>) {
    && CtxOk(c) && Prefixed(c, d, t) && MemoOk(c, d, memo, m) && FrontierOk(d, memo, frontier, busy, ends)
    && RowsOk(c, d, t, memo, frontier, busy, ends) && LooksOk(c, t) && TablesOk(c, m, acc)
    && (forall k | 0 <= k < |ends| :: c.n0 <= ends[k])
  }

  lemma PStart(c: Ctx)
    requires CtxOk(c)
    ensures PWork(c, c.d0, c.t0, map[], [], {}, [], map[], {})
  {
    assert c.d0[..c.n0] == c.d0 && c.t0[..|c.t0|] == c.t0;
  }

  lemma GetNewMemo(c: Ctx, d: seq<seq<nat>>, memo: map<PState, nat>, m: map<int, map<char, int>>, q: PState)
    requires MemoOk(c, d, memo, m) && q !in memo && q.a < c.n0 && q.b <= m.Keys && |d| >= c.n0
    ensures MemoOk(c, d + [[]], memo[q := |d|], m)
  {
  }

  lemma GetNewFrontier(d: seq<seq<nat>>, memo: map<PState, nat>, frontier: seq<PState>, busy: set<PState>,
                       ends: seq<nat>, q: PState)
    requires FrontierOk(d, memo, frontier, busy, ends) && q !in memo && busy <= memo.Keys
    requires forall p | p in memo :: memo[p] < |d|
    ensures FrontierOk(d + [[]], memo[q := |d|], frontier + [q], busy, ends)
  {
    var d', memo', fr' := d + [[]], memo[q := |d|], frontier + [q];
    forall k | 0 <= k < |fr'|
      ensures fr'[k] in memo' && memo'[fr'[k]] < |d'| && d'[memo'[fr'[k]]] == [] && fr'[k] !in busy && memo'[fr'[k]] !in ends
    {
      if k < |frontier| {
        assert fr'[k] == frontier[k];
      }
    }
  }

  lemma GetNewRows(c: Ctx, d: seq<seq<nat>>, t: seq<Transition>, memo: map<PState, nat>, frontier: seq<PState>,
                   busy: set<PState>, ends: seq<nat>, q: PState)
    requires CtxOk(c) && RowsOk(c, d, t, memo, frontier, busy, ends) && q !in memo
    requires forall p | p in memo :: memo[p] < |d|
    ensures RowsOk(c, d + [[]], t, memo[q := |d|], frontier + [q], busy, ends)
  {
    var d', memo', fr' := d + [[]], memo[q := |d|], frontier + [q];
    forall p | p in memo' && p.a < c.n0 && memo'[p] < |d'| && p !in fr' && p !in busy
      ensures RowBuilt(Expected(c, p), d'[memo'[p]], t, memo', c.rev) && (memo'[p] in ends <==> IsAccepting(c, p))
    {
      assert p in memo && p !in frontier;
      assert d'[memo'[p]] == d[memo[p]];
      RowBuiltKept(Expected(c, p), d[memo[p]], t, memo, c.rev, t, memo');
    }
  }

  /** A new product state gets a fresh node and joins the frontier. */
  lemma PGetNew(c: Ctx, d: seq<seq<nat>>, t: seq<Transition>, memo: map<PState, nat>, frontier: seq<PState>,
                busy: set<PState>, ends: seq<nat>, m: map<int, map<char, int>>, acc: set<int>, q: PState)
    requires PWork(c, d, t, memo, frontier, busy, ends, m, acc)
    requires q !in memo && q.a < c.n0 && q.b <= m.Keys && busy <= memo.Keys
    ensures PWork(c, d + [[]], t, memo[q := |d|], frontier + [q], busy, ends, m, acc)
  {
    PrefixAfterAppend(d, [[]], c.n0);
    GetNewMemo(c, d, memo, m, q);
    GetNewFrontier(d, memo, frontier, busy, ends, q);
    GetNewRows(c, d, t, memo, frontier, busy, ends, q);
  }

  /** Popping the frontier's last state makes it the one being processed. */
  lemma PPop(c: Ctx, d: seq<seq<nat>>, t: seq<Transition>, memo: map<PState, nat>, frontier: seq<PState>,
             ends: seq<nat>, m: map<int, map<char, int>>, acc: set<int>)
    requires PWork(c, d, t, memo, frontier, {}, ends, m, acc) && |frontier| > 0
    ensures var p := frontier[|frontier| - 1];
      && PWork(c, d, t, memo, frontier[..|frontier| - 1], {p}, ends, m, acc)
      && p in memo && memo[p] < |d| && d[memo[p]] == [] && memo[p] !in ends
  {
    var p, rest := frontier[|frontier| - 1], frontier[..|frontier| - 1];
    assert frontier == rest + [p];
    forall k | 0 <= k < |rest| ensures rest[k] != p {
      assert rest[k] == frontier[k];
    }
  }

  /** Marking the state being processed as accepting. */
  lemma PAccept(c: Ctx, d: seq<seq<nat>>, t: seq<Transition>, memo: map<PState, nat>, frontier: seq<PState>,
                p: PState, ends: seq<nat>, m: map<int, map<char, int>>, acc: set<int>)
    requires PWork(c, d, t, memo, frontier, {p}, ends, m, acc) && p in memo && memo[p] < |d| && memo[p] !in ends
    ensures PWork(c, d, t, memo, frontier, {p}, ends + [memo[p]], m, acc)
  {
  }

  /** Growing the merged tables keeps the worklist state. */
  lemma PTables(c: Ctx, d: seq<seq<nat>>, t: seq<Transition>, memo: map<PState, nat>, frontier: seq<PState>,
                busy: set<PState>, ends: seq<nat>, m: map<int, map<char, int>>, acc: set<int>,
                m': map<int, map<char, int>>, acc': set<int>)
    requires PWork(c, d, t, memo, frontier, busy, ends, m, acc) && TablesOk(c, m', acc') && m.Keys <= m'.Keys
    ensures PWork(c, d, t, memo, frontier, busy, ends, m', acc')
  {
  }

  /** Appending one record to the list of the state being processed. */
  lemma PEdge(c: Ctx, d: seq<seq<nat>>, t: seq<Transition>, memo: map<PState, nat>, frontier: seq<PState>,
              p: PState, ends: seq<nat>, m: map<int, map<char, int>>, acc: set<int>, tr: Transition)
    requires PWork(c, d, t, memo, frontier, {p}, ends, m, acc) && p in memo
    requires tr.look.None? || (tr.look.value in Looks(c.t0) && tr.look.value.rev != c.rev)
    ensures var us := memo[p];
      PWork(c, d[us := d[us] + [|t|]], t + [tr], memo, frontier, {p}, ends, m, acc)
  {
    var us := memo[p];
    var d', t' := d[us := d[us] + [|t|]], t + [tr];
    PrefixAfterUpdate(d, us, d[us] + [|t|], c.n0);
    PrefixAfterAppend(t, [tr], |c.t0|);
    forall q | q in memo && q.a < c.n0 && memo[q] < |d'| && q !in frontier && q !in {p}
      ensures RowBuilt(Expected(c, q), d'[memo[q]], t', memo, c.rev) && (memo[q] in ends <==> IsAccepting(c, q))
    {
      assert d'[memo[q]] == d[memo[q]];
      RowBuiltKept(Expected(c, q), d[memo[q]], t, memo, c.rev, t', memo);
    }
    forall k | 0 <= k < |frontier| ensures d'[memo[frontier[k]]] == [] {
      assert frontier[k] != p;
    }
    assert LooksOk(c, t') by {
      forall j | |c.t0| <= j < |t'|
        ensures t'[j].look.None? || (t'[j].look.value in Looks(c.t0) && t'[j].look.value.rev != c.rev)
      {
        if j < |t| {
          assert t'[j] == t[j];
        }
      }
    }
  }

  /** Finishing the state being processed. */
  lemma PRelease(c: Ctx, d: seq<seq<nat>>, t: seq<Transition>, memo: map<PState, nat>, frontier: seq<PState>,
                 p: PState, ends: seq<nat>, m: map<int, map<char, int>>, acc: set<int>)
    requires PWork(c, d, t, memo, frontier, {p}, ends, m, acc) && p in memo
    requires RowBuilt(Expected(c, p), d[memo[p]], t, memo, c.rev) && (memo[p] in ends <==> IsAccepting(c, p))
    ensures PWork(c, d, t, memo, frontier, {}, ends, m, acc)
  {
  }

  lemma RowStep(exp: seq<PArc>, l: seq<nat>, t: seq<Transition>, memo: map<PState, nat>, rev: bool, pa: PArc, tr: Transition)
    requires RowBuilt(exp, l, t, memo, rev) && pa.target in memo && ArcOf(tr, rev) == Arc(pa.at, pa.look, memo[pa.target])
    ensures RowBuilt(exp + [pa], l + [|t|], t + [tr], memo, rev)
  {
    RowBuiltKept(exp, l, t, memo, rev, t + [tr], memo);
    assert (t + [tr])[|t|] == tr;
  }

  lemma ProductArcsStep(arcs: seq<Arc>, i: nat, b: set<int>, rev: bool, g: map<int, map<char, int>>)
    requires i < |arcs|
    ensures ProductArcs(arcs[..i + 1], b, rev, g) == ProductArcs(arcs[..i], b, rev, g) + StepArc(arcs[i], b, rev, g)
  {
    assert arcs[..i + 1][..i] == arcs[..i];
  }

  /** The part of one iteration of `edgeSearch` that decides the move: the
      move `arc` (the `i`th of the input node `p.a`) gives the product move
      `r`, or none when some live state cannot follow its character; merging a
      body met for the first time grows the tables. */
  method ArcTarget(ghost c: Ctx, rev: bool, p: PState, ghost i: nat, arc: Arc,
                   m0: map<int, map<char, int>>, acc0: set<int>)
    returns (r: Option<PArc>, m: map<int, map<char, int>>, acc: set<int>)
    requires CtxOk(c) && c.rev == rev && TablesOk(c, m0, acc0) && p.b <= m0.Keys && p.a < c.n0
    requires i < |c.d0[p.a]| && arc == ArcOf(c.t0[c.d0[p.a][i]], c.rev)
    ensures TablesOk(c, m, acc) && m0.Keys <= m.Keys
    ensures StepArc(arc, p.b, c.rev, Table(c.t0, c.rev)) == if r.Some? then [r.value] else []
    ensures r.Some? ==> r.value.target.a < c.n0 && r.value.target.b <= m.Keys
    ensures r.Some? ==> r.value.look.None? || (r.value.look.value in Looks(c.t0) && r.value.look.value.rev != c.rev)
  {
    m, acc := m0, acc0;
    ghost var j := c.d0[p.a][i];
    assert j < |c.t0|;
    if arc.at.None? {
      var look := arc.look;
      var newB := p.b;
      if look.Some? && look.value.rev == rev {
        var body := look.value.body;
        look := None;
        assert Merges(c.t0[j], c.rev) && body == c.t0[j].look.value.body;
        if body.initial !in m {
          MergeKeepsTables(c, m, acc, j);
          m := MergeEdges(m, body);
          acc := MergeAccept(acc, body);
        }
        newB := p.b + {body.initial};
      } else if look.Some? {
        assert c.t0[j].look.value in Looks(c.t0);
      }
      r := Some(PArc(None, look, PState(arc.to, newB)));
    } else {
      AdvanceByTables(c, m, acc, p.b, arc.at.value);
      var adv := Advance(m, p.b, arc.at.value);
      if adv.None? {
        r := None;
      } else {
        r := Some(PArc(arc.at, None, PState(arc.to, adv.value)));
      }
    }
  }

  /** The rest of that iteration: fetch (or create) the node of the move's
      target and append the move to `us`'s list. */
  method AddArc(arena: Arena, ghost c: Ctx, rev: bool, p: PState, us: nat, pa: PArc, ghost pre: seq<PArc>,
                memo0: map<PState, nat>, frontier0: seq<PState>, ghost m: map<int, map<char, int>>, ghost acc: set<int>,
                ghost ends: seq<nat>)
    returns (memo: map<PState, nat>, frontier: seq<PState>)
    requires arena.Valid() && |arena.forward| >= c.n0 && c.rev == rev
    requires PWork(c, Dir(arena.forward, arena.back, c.rev), arena.trans, memo0, frontier0, {p}, ends, m, acc)
    requires p in memo0 && us == memo0[p]
    requires pa.target.a < c.n0 && pa.target.b <= m.Keys
    requires pa.look.None? || (pa.look.value in Looks(c.t0) && pa.look.value.rev != c.rev)
    requires RowBuilt(pre, Dir(arena.forward, arena.back, c.rev)[us], arena.trans, memo0, c.rev)
    modifies arena
    ensures arena.Valid() && |arena.forward| >= c.n0
    ensures arena.forward[..c.n0] == old(arena.forward[..c.n0]) && arena.back[..c.n0] == old(arena.back[..c.n0])
    ensures Extends(memo0, memo) && (memo.Keys == memo0.Keys ==> frontier == frontier0)
    ensures PWork(c, Dir(arena.forward, arena.back, c.rev), arena.trans, memo, frontier, {p}, ends, m, acc)
    ensures RowBuilt(pre + [pa], Dir(arena.forward, arena.back, c.rev)[us], arena.trans, memo, c.rev)
  {
    ghost var d0 := Dir(arena.forward, arena.back, c.rev);
    ghost var f1, b1, t1 := arena.forward, arena.back, arena.trans;
    var to;
    to, memo, frontier := arena.GetNode(memo0, frontier0, pa.target);
    if pa.target !in memo0 {
      PGetNew(c, d0, t1, memo0, frontier0, {p}, ends, m, acc, pa.target);
      PrefixAfterAppend(f1, [[]], c.n0);
      PrefixAfterAppend(b1, [[]], c.n0);
      assert Dir(arena.forward, arena.back, c.rev) == d0 + [[]];
      RowBuiltKept(pre, d0[us], t1, memo0, c.rev, t1, memo);
    }
    ghost var d2, f2, b2, t2 := Dir(arena.forward, arena.back, c.rev), arena.forward, arena.back, arena.trans;
    var src, dst := if rev then to else us, if rev then us else to;
    arena.Edge(us, to, pa.at, pa.look, rev);
    ghost var tr := Transition(pa.at, pa.look, src, dst);
    assert arena.trans == t2 + [tr];
    PEdge(c, d2, t2, memo, frontier, p, ends, m, acc, tr);
    PrefixAfterUpdate(f2, src, f2[src] + [|t2|], c.n0);
    PrefixAfterUpdate(b2, dst, b2[dst] + [|t2|], c.n0);
    RowStep(pre, d2[us], t2, memo, c.rev, pa, tr);
  }

  lemma ExtendsChain<K, V>(m0: map<K, V>, m1: map<K, V>, m2: map<K, V>)
    requires Extends(m0, m1) && Extends(m1, m2)
    ensures Extends(m0, m2) && (m2.Keys == m0.Keys ==> m1.Keys == m0.Keys)
  {
  }

  lemma ArcsOfPrefix(l: seq<nat>, t: seq<Transition>, t0: seq<Transition>, rev: bool)
    requires |t| >= |t0| && t[..|t0|] == t0 && forall i | 0 <= i < |l| :: l[i] < |t0|
    ensures ArcsOf(l, t, rev) == ArcsOf(l, t0, rev)
  {
    forall i | 0 <= i < |l| ensures t[l[i]] == t0[l[i]] {
      assert t[..|t0|][l[i]] == t[l[i]];
    }
  }

  /** What the loop over the moves of `p` keeps: the input nodes are
      untouched, the memo only grows, the pass state holds and the row of `us`
      lists exactly the moves `built`. */
  ghost predicate RowLoop(c: Ctx, f0: seq<seq<nat>>, b0: seq<seq<nat>>, f: seq<seq<nat>>, b: seq<seq<nat>>, t: seq<Transition>,
                          memo0: map<PState, nat>, frontier0: seq<PState>, memo: map<PState, nat>, frontier: seq<PState>,
                          p: PState, us: nat, ends: seq<nat>, m: map<int, map<char, int>>, acc: set<int>, built: seq<PArc>) {
    && |f| >= c.n0 && |b| >= c.n0 && f[..c.n0] == f0 && b[..c.n0] == b0
    && Extends(memo0, memo) && (memo.Keys == memo0.Keys ==> frontier == frontier0)
    && PWork(c, Dir(f, b, c.rev), t, memo, frontier, {p}, ends, m, acc)
    && p in memo && us == memo[p]
    && RowBuilt(built, Dir(f, b, c.rev)[us], t, memo, c.rev)
  }

  /** One iteration of `edgeSearch`: decide the `i`th move of `p.a` and add it
      when it survives. */
  method BuildArc(arena: Arena, ghost c: Ctx, rev: bool, p: PState, us: nat, arcs: seq<Arc>, i: nat,
                  ghost f0: seq<seq<nat>>, ghost b0: seq<seq<nat>>, ghost memo0: map<PState, nat>, ghost frontier0: seq<PState>,
                  memo1: map<PState, nat>, frontier1: seq<PState>, m1: map<int, map<char, int>>, acc1: set<int>,
                  ghost ends: seq<nat>)
    returns (memo: map<PState, nat>, frontier: seq<PState>, m: map<int, map<char, int>>, acc: set<int>)
    requires arena.Valid() && c.rev == rev && CtxOk(c) && p.a < c.n0 && i < |arcs| && arcs == ArcsOf(c.d0[p.a], c.t0, c.rev)
    requires RowLoop(c, f0, b0, arena.forward, arena.back, arena.trans, memo0, frontier0, memo1, frontier1, p, us, ends, m1, acc1,
                     ProductArcs(arcs[..i], p.b, rev, Table(c.t0, c.rev)))
    modifies arena
    ensures arena.Valid()
    ensures RowLoop(c, f0, b0, arena.forward, arena.back, arena.trans, memo0, frontier0, memo, frontier, p, us, ends, m, acc,
                    ProductArcs(arcs[..i + 1], p.b, rev, Table(c.t0, c.rev)))
  {
    ghost var g := Table(c.t0, c.rev);
    ProductArcsStep(arcs, i, p.b, rev, g);
    ghost var pre := ProductArcs(arcs[..i], p.b, rev, g);
    memo, frontier := memo1, frontier1;
    var pa;
    pa, m, acc := ArcTarget(c, rev, p, i, arcs[i], m1, acc1);
    PTables(c, Dir(arena.forward, arena.back, c.rev), arena.trans, memo, frontier, {p}, ends, m1, acc1, m, acc);
    if pa.Some? {
      memo, frontier := AddArc(arena, c, rev, p, us, pa.value, pre, memo, frontier, m, acc, ends);
      ExtendsChain(memo0, memo1, memo);
      assert ProductArcs(arcs[..i + 1], p.b, rev, g) == pre + [pa.value];
    } else {
      assert ProductArcs(arcs[..i + 1], p.b, rev, g) == pre;
    }
  }

  /** The body of the main loop after the pop: build every move of the
      product state `p`, whose node is `us`. */
  method BuildRow(arena: Arena, ghost c: Ctx, rev: bool, p: PState, us: nat,
                  memo0: map<PState, nat>, frontier0: seq<PState>, m0: map<int, map<char, int>>, acc0: set<int>,
                  ghost ends: seq<nat>)
    returns (memo: map<PState, nat>, frontier: seq<PState>, m: map<int, map<char, int>>, acc: set<int>)
    requires arena.Valid() && |arena.forward| >= c.n0 && c.rev == rev
    requires PWork(c, Dir(arena.forward, arena.back, c.rev), arena.trans, memo0, frontier0, {p}, ends, m0, acc0)
    requires p in memo0 && us == memo0[p] && Dir(arena.forward, arena.back, c.rev)[us] == []
    modifies arena
    ensures arena.Valid() && |arena.forward| >= c.n0
    ensures arena.forward[..c.n0] == old(arena.forward[..c.n0]) && arena.back[..c.n0] == old(arena.back[..c.n0])
    ensures Extends(memo0, memo) && (memo.Keys == memo0.Keys ==> frontier == frontier0)
    ensures PWork(c, Dir(arena.forward, arena.back, c.rev), arena.trans, memo, frontier, {p}, ends, m, acc)
    ensures RowBuilt(Expected(c, p), Dir(arena.forward, arena.back, c.rev)[us], arena.trans, memo, c.rev)
  {
    memo, frontier, m, acc := memo0, frontier0, m0, acc0;
    ghost var g := Table(c.t0, c.rev);
    ghost var f0, b0 := arena.forward[..c.n0], arena.back[..c.n0];
    assert Dir(arena.forward, arena.back, c.rev)[p.a] == c.d0[p.a] by {
      assert Dir(arena.forward, arena.back, c.rev)[..c.n0][p.a] == c.d0[p.a];
    }
    var arcs := arena.Edges(p.a, rev);
    ArcsOfPrefix(c.d0[p.a], arena.trans, c.t0, rev);
    assert arcs == ArcsOf(c.d0[p.a], c.t0, c.rev);
    assert arcs[..0] == [];
    var i := 0;
    while i < |arcs|
      invariant arena.Valid() && 0 <= i <= |arcs|
      invariant RowLoop(c, f0, b0, arena.forward, arena.back, arena.trans, memo0, frontier0, memo, frontier, p, us, ends, m, acc,
                        ProductArcs(arcs[..i], p.b, rev, g))
    {
      memo, frontier, m, acc := BuildArc(arena, c, rev, p, us, arcs, i, f0, b0, memo0, frontier0, memo, frontier, m, acc, ends);
      i := i + 1;
    }
    assert arcs[..i] == arcs;
  }

  /** Every product state a pass can reach: an input node and a set of merged
      body states. */
  ghost function Universe(n0: nat, keys: set<int>): set<PState> {
    set a, b | a in IdsBelow(n0) && b <= keys :: PState(a, b)
  }

  lemma MemoInUniverse(c: Ctx, d: seq<seq<nat>>, memo: map<PState, nat>, m: map<int, map<char, int>>, acc: set<int>)
    requires MemoOk(c, d, memo, m) && TablesOk(c, m, acc)
    ensures memo.Keys <= Universe(c.n0, Table(c.t0, c.rev).Keys)
  {
    forall p | p in memo ensures p in Universe(c.n0, Table(c.t0, c.rev).Keys) {
      assert p.a in IdsBelow(c.n0) && p.b <= Table(c.t0, c.rev).Keys;
      assert p == PState(p.a, p.b);
    }
  }

  /** One iteration of the main loop of `intersect`: pop a product state,
      mark it accepting when it is, and build its moves. */
  method ProductStep(arena: Arena, ghost c: Ctx, rev: bool, aEnd: nat,
                     memo0: map<PState, nat>, frontier0: seq<PState>, m0: map<int, map<char, int>>, acc0: set<int>,
                     ends0: seq<nat>)
    returns (memo: map<PState, nat>, frontier: seq<PState>, m: map<int, map<char, int>>, acc: set<int>, ends: seq<nat>)
    requires arena.Valid() && |arena.forward| >= c.n0 && c.rev == rev && c.aEnd == aEnd
    requires PWork(c, Dir(arena.forward, arena.back, c.rev), arena.trans, memo0, frontier0, {}, ends0, m0, acc0)
    requires |frontier0| > 0
    modifies arena
    ensures arena.Valid() && |arena.forward| >= c.n0
    ensures arena.forward[..c.n0] == old(arena.forward[..c.n0]) && arena.back[..c.n0] == old(arena.back[..c.n0])
    ensures Extends(memo0, memo) && (memo.Keys == memo0.Keys ==> |frontier| < |frontier0|)
    ensures PWork(c, Dir(arena.forward, arena.back, c.rev), arena.trans, memo, frontier, {}, ends, m, acc)
  {
    PPop(c, Dir(arena.forward, arena.back, c.rev), arena.trans, memo0, frontier0, ends0, m0, acc0);
    var p := frontier0[|frontier0| - 1];
    frontier := frontier0[..|frontier0| - 1];
    m, acc, ends := m0, acc0, ends0;
    var us;
    us, memo, frontier := arena.GetNode(memo0, frontier, p);
    AcceptingByTables(c, m, acc, p);
    if p.a == aEnd && p.b <= acc {
      PAccept(c, Dir(arena.forward, arena.back, c.rev), arena.trans, memo, frontier, p, ends, m, acc);
      ends := ends + [us];
    }
    memo, frontier, m, acc := BuildRow(arena, c, rev, p, us, memo, frontier, m, acc, ends);
    PRelease(c, Dir(arena.forward, arena.back, c.rev), arena.trans, memo, frontier, p, ends, m, acc);
  }

  /** The main loop of `intersect`, until the frontier is empty. */
  method DrainProduct(arena: Arena, ghost c: Ctx, rev: bool, aEnd: nat,
                      memo0: map<PState, nat>, frontier0: seq<PState>, m0: map<int, map<char, int>>, acc0: set<int>)
    returns (memo: map<PState, nat>, ends: seq<nat>, ghost m: map<int, map<char, int>>, ghost acc: set<int>)
    requires arena.Valid() && |arena.forward| >= c.n0 && c.rev == rev && c.aEnd == aEnd
    requires PWork(c, Dir(arena.forward, arena.back, c.rev), arena.trans, memo0, frontier0, {}, [], m0, acc0)
    modifies arena
    ensures arena.Valid() && |arena.forward| >= c.n0
    ensures arena.forward[..c.n0] == old(arena.forward[..c.n0]) && arena.back[..c.n0] == old(arena.back[..c.n0])
    ensures Extends(memo0, memo)
    ensures PWork(c, Dir(arena.forward, arena.back, c.rev), arena.trans, memo, [], {}, ends, m, acc)
  {
    ghost var universe := Universe(c.n0, Table(c.t0, c.rev).Keys);
    var frontier, m', acc' := frontier0, m0, acc0;
    memo, ends := memo0, [];
    MemoInUniverse(c, Dir(arena.forward, arena.back, c.rev), memo, m', acc');
    while |frontier| > 0
      invariant arena.Valid() && |arena.forward| >= c.n0
      invariant arena.forward[..c.n0] == old(arena.forward[..c.n0]) && arena.back[..c.n0] == old(arena.back[..c.n0])
      invariant Extends(memo0, memo) && memo.Keys <= universe
      invariant PWork(c, Dir(arena.forward, arena.back, c.rev), arena.trans, memo, frontier, {}, ends, m', acc')
      decreases |universe - memo.Keys|, |frontier|
    {
      ghost var memo1 := memo;
      memo, frontier, m', acc', ends := ProductStep(arena, c, rev, aEnd, memo, frontier, m', acc', ends);
      MemoInUniverse(c, Dir(arena.forward, arena.back, c.rev), memo, m', acc');
      SubsetMeasure(universe, memo1.Keys, memo.Keys);
    }
    m, acc := m', acc';
  }

  lemma PGrow(c: Ctx, d: seq<seq<nat>>, t: seq<Transition>, memo: map<PState, nat>, ends: seq<nat>,
              m: map<int, map<char, int>>, acc: set<int>)
    requires PWork(c, d, t, memo, [], {}, ends, m, acc)
    ensures PWork(c, d + [[]], t, memo, [], {}, ends, m, acc)
  {
    PrefixAfterAppend(d, [[]], c.n0);
    forall p | p in memo && p.a < c.n0 && memo[p] < |d + [[]]| ensures (d + [[]])[memo[p]] == d[memo[p]] {}
  }

  /** The final list of the node of product state `p`: its moves, followed,
      when `closed`, by an epsilon move to `end`. */
  ghost predicate Closing(c: Ctx, d: seq<seq<nat>>, t: seq<Transition>, memo: map<PState, nat>, end: nat, p: PState, closed: bool) {
    && CtxOk(c) && p in memo && p.a < c.n0 && memo[p] < |d|
    && var exp, l := Expected(c, p), d[memo[p]];
       && |l| == |exp| + (if closed then 1 else 0)
       && RowBuilt(exp, l[..|exp|], t, memo, c.rev)
       && (closed ==> l[|exp|] < |t| && ArcOf(t[l[|exp|]], c.rev) == Arc(None, None, end))
  }

  lemma ClosingStart(c: Ctx, d: seq<seq<nat>>, t: seq<Transition>, memo: map<PState, nat>, ends: seq<nat>,
                     m: map<int, map<char, int>>, acc: set<int>, end: nat)
    requires PWork(c, d, t, memo, [], {}, ends, m, acc)
    ensures forall p | p in memo :: Closing(c, d, t, memo, end, p, memo[p] in ends[..0])
    ensures forall p | p in memo :: memo[p] in ends <==> IsAccepting(c, p)
  {
    forall p | p in memo ensures Closing(c, d, t, memo, end, p, memo[p] in ends[..0]) {
      assert d[memo[p]][..|Expected(c, p)|] == d[memo[p]];
    }
  }

  /** Adding the move from `ends[i]` to `end`. */
  lemma CloseStep(c: Ctx, d: seq<seq<nat>>, t: seq<Transition>, memo: map<PState, nat>, end: nat,
                  ends: seq<nat>, i: nat, tr: Transition)
    requires i < |ends| && ends[i] < |d|
    requires forall k1, k2 | 0 <= k1 < k2 < |ends| :: ends[k1] != ends[k2]
    requires forall p | p in memo :: Closing(c, d, t, memo, end, p, memo[p] in ends[..i])
    requires ArcOf(tr, c.rev) == Arc(None, None, end)
    ensures var e := ends[i];
      forall p | p in memo :: Closing(c, d[e := d[e] + [|t|]], t + [tr], memo, end, p, memo[p] in ends[..i + 1])
  {
    var e := ends[i];
    var d', t' := d[e := d[e] + [|t|]], t + [tr];
    assert ends[..i + 1] == ends[..i] + [e];
    assert e !in ends[..i] by {
      forall k | 0 <= k < i ensures ends[..i][k] != e { assert ends[..i][k] == ends[k]; }
    }
    forall p | p in memo ensures Closing(c, d', t', memo, end, p, memo[p] in ends[..i + 1]) {
      var exp, l := Expected(c, p), d[memo[p]];
      var closed := memo[p] in ends[..i];
      RowBuiltKept(exp, l[..|exp|], t, memo, c.rev, t', memo);
      if memo[p] == e {
        assert !closed;
        assert d'[memo[p]][..|exp|] == l[..|exp|];
        assert t'[|t|] == tr;
      } else {
        assert d'[memo[p]] == l;
        if closed {
          assert t'[l[|exp|]] == t[l[|exp|]];
        }
      }
    }
  }

  /** Appending one record without an assertion keeps the input prefix and
      the assertion discipline of added records. */
  lemma AppendPlain(c: Ctx, d: seq<seq<nat>>, t: seq<Transition>, x: nat, tr: Transition)
    requires Prefixed(c, d, t) && LooksOk(c, t) && c.n0 <= x < |d| && tr.look.None?
    ensures Prefixed(c, d[x := d[x] + [|t|]], t + [tr]) && LooksOk(c, t + [tr])
  {
    PrefixAfterUpdate(d, x, d[x] + [|t|], c.n0);
    PrefixAfterAppend(t, [tr], |c.t0|);
    forall j | |c.t0| <= j < |t| ensures (t + [tr])[j] == t[j] {}
  }

  /** The state of the loop over `ends` after `i` of them. */
  ghost predicate Closed(c: Ctx, d: seq<seq<nat>>, t: seq<Transition>, memo: map<PState, nat>, ends: seq<nat>, end: nat, i: nat) {
    && CtxOk(c) && Prefixed(c, d, t) && LooksOk(c, t) && i <= |ends|
    && c.n0 <= end < |d| && d[end] == []
    && (forall k | 0 <= k < |ends| :: c.n0 <= ends[k] < end)
    && (forall k1, k2 | 0 <= k1 < k2 < |ends| :: ends[k1] != ends[k2])
    && (forall p | p in memo :: Closing(c, d, t, memo, end, p, memo[p] in ends[..i]))
  }

  /** One iteration of the loop over `ends`. */
  method CloseOne(arena: Arena, ghost c: Ctx, rev: bool, ghost memo: map<PState, nat>, ends: seq<nat>, end: nat, i: nat)
    requires arena.Valid() && c.rev == rev && i < |ends|
    requires Closed(c, Dir(arena.forward, arena.back, c.rev), arena.trans, memo, ends, end, i)
    modifies arena
    ensures arena.Valid() && |arena.forward| == old(|arena.forward|)
    ensures arena.forward[..c.n0] == old(arena.forward[..c.n0]) && arena.back[..c.n0] == old(arena.back[..c.n0])
    ensures Closed(c, Dir(arena.forward, arena.back, c.rev), arena.trans, memo, ends, end, i + 1)
  {
    ghost var d, f, b, t := Dir(arena.forward, arena.back, c.rev), arena.forward, arena.back, arena.trans;
    var src, dst := if rev then end else ends[i], if rev then ends[i] else end;
    arena.Edge(ends[i], end, None, None, rev);
    ghost var tr := Transition(None, None, src, dst);
    CloseStep(c, d, t, memo, end, ends, i, tr);
    AppendPlain(c, d, t, ends[i], tr);
    PrefixAfterUpdate(f, src, f[src] + [|t|], c.n0);
    PrefixAfterUpdate(b, dst, b[dst] + [|t|], c.n0);
  }

  /** The loop over `ends`: an epsilon move from each accepting product state
      to the single new final node `end`. */
  method CloseEnds(arena: Arena, ghost c: Ctx, rev: bool, ghost memo: map<PState, nat>, ends: seq<nat>, end: nat)
    requires arena.Valid() && c.rev == rev
    requires Closed(c, Dir(arena.forward, arena.back, c.rev), arena.trans, memo, ends, end, 0)
    modifies arena
    ensures arena.Valid() && |arena.forward| == old(|arena.forward|)
    ensures arena.forward[..c.n0] == old(arena.forward[..c.n0]) && arena.back[..c.n0] == old(arena.back[..c.n0])
    ensures Closed(c, Dir(arena.forward, arena.back, c.rev), arena.trans, memo, ends, end, |ends|)
  {
    var i := 0;
    while i < |ends|
      invariant arena.Valid() && |arena.forward| == old(|arena.forward|) && 0 <= i <= |ends|
      invariant arena.forward[..c.n0] == old(arena.forward[..c.n0]) && arena.back[..c.n0] == old(arena.back[..c.n0])
      invariant Closed(c, Dir(arena.forward, arena.back, c.rev), arena.trans, memo, ends, end, i)
    {
      CloseOne(arena, c, rev, memo, ends, end, i);
      i := i + 1;
    }
  }

  /** A pass adds no assertion that was not in its input. */
  lemma LooksKept(c: Ctx, t: seq<Transition>)
    requires |t| >= |c.t0| && t[..|c.t0|] == c.t0 && LooksOk(c, t)
    ensures Looks(t) == Looks(c.t0)
  {
    forall l | l in Looks(c.t0) ensures l in Looks(t) {
      var i :| 0 <= i < |c.t0| && c.t0[i].look.Some? && c.t0[i].look.value == l;
      assert t[i] == t[..|c.t0|][i];
    }
    forall l | l in Looks(t) ensures l in Looks(c.t0) {
      var i :| 0 <= i < |t| && t[i].look.Some? && t[i].look.value == l;
      if i < |c.t0| {
        assert t[i] == t[..|c.t0|][i];
      }
    }
  }

  lemma MemoOkByTable(c: Ctx, d: seq<seq<nat>>, d': seq<seq<nat>>, memo: map<PState, nat>,
                      m: map<int, map<char, int>>, acc: set<int>)
    requires MemoOk(c, d, memo, m) && TablesOk(c, m, acc) && |d'| == |d|
    ensures MemoOk(c, d', memo, Table(c.t0, c.rev))
  {
  }

  /** The start of `intersect`: the memo holds just the start state, on the frontier. */
  method StartPass(arena: Arena, ghost c: Ctx, x: Frag, rev: bool)
    returns (start: nat, states: map<PState, nat>, frontier: seq<PState>)
    requires arena.Valid() && CtxOk(c) && x.start < |arena.forward| && x.end < |arena.forward|
    requires c == Ctx(Dir(arena.forward, arena.back, rev), arena.trans, |arena.forward|, rev, Final(x, rev))
    modifies arena
    ensures arena.Valid() && arena.forward == old(arena.forward) + [[]] && arena.back == old(arena.back) + [[]]
    ensures arena.trans == old(arena.trans)
    ensures states == map[PState(Begin(x, rev), {}) := start]
    ensures PWork(c, Dir(arena.forward, arena.back, rev), arena.trans, states, frontier, {}, [], map[], {})
  {
    PStart(c);
    var first := PState(Begin(x, rev), {});
    states, frontier := map[], [];
    start, states, frontier := arena.GetNode(states, frontier, first);
    PGetNew(c, c.d0, c.t0, map[], [], {}, [], map[], {}, first);
    assert Dir(arena.forward, arena.back, rev) == c.d0 + [[]];
  }

  /** The end of `intersect`: a new final node `end` and the loop over `ends`. */
  method FinishPass(arena: Arena, ghost c: Ctx, rev: bool, ghost memo: map<PState, nat>, ends: seq<nat>,
                    ghost m: map<int, map<char, int>>, ghost acc: set<int>) returns (end: nat)
    requires arena.Valid() && |arena.forward| >= c.n0 && c.rev == rev
    requires PWork(c, Dir(arena.forward, arena.back, c.rev), arena.trans, memo, [], {}, ends, m, acc)
    modifies arena
    ensures arena.Valid() && |arena.forward| == old(|arena.forward|) + 1 && end == old(|arena.forward|)
    ensures arena.forward[..c.n0] == old(arena.forward[..c.n0]) && arena.back[..c.n0] == old(arena.back[..c.n0])
    ensures CtxOk(c) && Prefixed(c, Dir(arena.forward, arena.back, rev), arena.trans) && LooksOk(c, arena.trans)
    ensures MemoOk(c, Dir(arena.forward, arena.back, rev), memo, Table(c.t0, rev))
    ensures c.n0 <= end && Dir(arena.forward, arena.back, rev)[end] == [] && forall p | p in memo :: memo[p] != end
    ensures forall p | p in memo :: Closing(c, Dir(arena.forward, arena.back, rev), arena.trans, memo, end, p, IsAccepting(c, p))
  {
    ghost var d1, f1, b1 := Dir(arena.forward, arena.back, rev), arena.forward, arena.back;
    end := arena.Empty();
    PGrow(c, d1, arena.trans, memo, ends, m, acc);
    PrefixAfterAppend(f1, [[]], c.n0);
    PrefixAfterAppend(b1, [[]], c.n0);
    assert Dir(arena.forward, arena.back, rev) == d1 + [[]];
    ClosingStart(c, Dir(arena.forward, arena.back, rev), arena.trans, memo, ends, m, acc, end);
    ghost var d2 := Dir(arena.forward, arena.back, rev);
    CloseEnds(arena, c, rev, memo, ends, end);
    assert ends[..|ends|] == ends;
    MemoOkByTable(c, d2, Dir(arena.forward, arena.back, rev), memo, m, acc);
  }

  /** `intersect(x, rev)`: the product of the graph `x` with the bodies of its
      assertions of direction `rev`, built forwards from `begin(x, rev)` (from
      the end when `rev`); every product state that accepts gets an epsilon
      move to one new final node. `memo` maps each product state reached to
      its node and `c` records what the pass read. */
  method Intersect(arena: Arena, x: Frag, rev: bool) returns (r: Frag, ghost memo: map<PState, nat>, ghost c: Ctx)
    requires arena.Valid() && x.start < |arena.forward| && x.end < |arena.forward| && Coherent(Looks(arena.trans))
    modifies arena
    ensures arena.Valid()
    ensures c == Ctx(old(Dir(arena.forward, arena.back, rev)), old(arena.trans), old(|arena.forward|), rev, Final(x, rev))
    ensures |arena.forward| > c.n0 && arena.forward[..c.n0] == old(arena.forward) && arena.back[..c.n0] == old(arena.back)
    ensures CtxOk(c) && Prefixed(c, Dir(arena.forward, arena.back, rev), arena.trans) && LooksOk(c, arena.trans)
    ensures Looks(arena.trans) == Looks(old(arena.trans))
    ensures MemoOk(c, Dir(arena.forward, arena.back, rev), memo, Table(c.t0, rev))
    ensures PState(Begin(x, rev), {}) in memo && Begin(r, rev) == memo[PState(Begin(x, rev), {})]
    ensures c.n0 <= Final(r, rev) < |arena.forward| && Dir(arena.forward, arena.back, rev)[Final(r, rev)] == []
    ensures forall p | p in memo :: memo[p] != Final(r, rev)
    ensures forall p | p in memo :: Closing(c, Dir(arena.forward, arena.back, rev), arena.trans, memo, Final(r, rev), p, IsAccepting(c, p))
  {
    ghost var n0, f0, b0 := |arena.forward|, arena.forward, arena.back;
    c := Ctx(Dir(arena.forward, arena.back, rev), arena.trans, n0, rev, Final(x, rev));
    assert CtxOk(c);
    var start, states, frontier := StartPass(arena, c, x, rev);
    PrefixAfterAppend(f0, [[]], n0);
    PrefixAfterAppend(b0, [[]], n0);
    var ends;
    ghost var m, acc;
    memo, ends, m, acc := DrainProduct(arena, c, rev, Final(x, rev), states, frontier, map[], {});
    var end := FinishPass(arena, c, rev, memo, ends, m, acc);
    LooksKept(c, arena.trans);
    r := Over(start, end, rev);
  }
}
