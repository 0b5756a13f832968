/** `dfaToNfa`: an acceptor turned back into a graph of the arena, one node
    per reachable state and one move per transition, with an epsilon move
    from each accepting state's node to a single final node. */
module Rebuild {
  import opened Base
  import opened Nfa
  import Dfa
  import Subset

  /** The row of state `q` laid out in node `memo[q]` of the graph `(f, t)`:
      first, when `q` accepts, an epsilon move to `end`; then one move per
      character of `order`, which lists each character of the row of `q`
      once, leading to the node of the target state. */
  ghost predicate BuiltRow(d: Dfa.Dfa, f: seq<seq<nat>>, t: seq<Transition>, memo: map<int, nat>, end: nat,
                           q: int, order: seq<char>) {
    && q in memo && q in d.edges && memo[q] < |f|
    && PartRow(d, f[memo[q]], t, memo, end, q, memo[q], order)
    && forall k | k in d.edges[q] :: k in order
  }

  /** The list `l` of node `us` holds the moves of state `q` for the characters of `order`. */
  ghost predicate PartRow(d: Dfa.Dfa, l: seq<nat>, t: seq<Transition>, memo: map<int, nat>, end: nat,
                          q: int, us: nat, order: seq<char>) {
    var a := if q in d.accept then 1 else 0;
    && q in d.edges
    && |l| == a + |order|
    && (forall i, j | 0 <= i < j < |order| :: order[i] != order[j])
    && (q in d.accept ==> l[0] < |t| && t[l[0]] == Transition(None, None, us, end))
    && forall i | 0 <= i < |order| ::
      && order[i] in d.edges[q] && d.edges[q][order[i]] in memo && l[a + i] < |t|
      && t[l[a + i]] == Transition(Some(order[i]), None, us, memo[d.edges[q][order[i]]])
  }

  /** The state of the worklist of `dfaToNfa`: nodes are fresh and distinct
      and differ from `end`, whose list stays empty; queued states have empty
      lists and are queued once; every other state met outside `busy` has
      its row built. */
  ghost predicate ConvState(d: Dfa.Dfa, n0: nat, f: seq<seq<nat>>, t: seq<Transition>, end: nat,
                            memo: map<int, nat>, frontier: seq<int>, busy: set<int>, ord: map<int, seq<char>>) {
    && n0 <= end < |f| && f[end] == []
    && (forall q | q in memo :: q in d.edges && n0 <= memo[q] < |f| && memo[q] != end)
    && (forall q, r | q in memo && r in memo && q != r :: memo[q] != memo[r])
    && (forall k | 0 <= k < |frontier| :: frontier[k] in memo && f[memo[frontier[k]]] == [] && frontier[k] !in busy)
    && (forall k1, k2 | 0 <= k1 < k2 < |frontier| :: frontier[k1] != frontier[k2])
    && (forall q | q in memo && q !in frontier && q !in busy :: q in ord && BuiltRow(d, f, t, memo, end, q, ord[q]))
  }

  /** `v` is the node of some state of `memo`. */
  ghost predicate NodeOf(memo: map<int, nat>, v: int) {
    exists q :: q in memo && memo[q] == v
  }

  /** How the lists of the nodes from `n0` on agree with the records from
      `k0` on: each such node is `end` or the node of a state met, each new
      record joins two such nodes and is listed by both, and a `back` list
      holds only records entering its node. */
  ghost predicate Wired(n0: nat, k0: nat, f: seq<seq<nat>>, b: seq<seq<nat>>, t: seq<Transition>, end: nat, memo: map<int, nat>) {
    && |b| == |f| && k0 <= |t|
    && (forall v | n0 <= v < |f| && v != end :: NodeOf(memo, v))
    && (forall i | k0 <= i < |t| :: n0 <= t[i].from < |f| && n0 <= t[i].to < |f| && i in f[t[i].from] && i in b[t[i].to])
    && (forall v, j | n0 <= v < |f| && 0 <= j < |f[v]| :: k0 <= f[v][j] < |t|)
    && (forall v, j | n0 <= v < |b| && 0 <= j < |b[v]| :: k0 <= b[v][j] < |t| && t[b[v][j]].to == v)
  }

  /** A new record between two new nodes keeps the lists wired. */
  lemma WiredEdge(n0: nat, k0: nat, f: seq<seq<nat>>, b: seq<seq<nat>>, t: seq<Transition>, end: nat, memo: map<int, nat>,
                  tr: Transition)
    requires Wired(n0, k0, f, b, t, end, memo) && n0 <= tr.from < |f| && n0 <= tr.to < |f|
    ensures Wired(n0, k0, f[tr.from := f[tr.from] + [|t|]], b[tr.to := b[tr.to] + [|t|]], t + [tr], end, memo)
  {
    var f', b', t' := f[tr.from := f[tr.from] + [|t|]], b[tr.to := b[tr.to] + [|t|]], t + [tr];
    forall i | k0 <= i < |t'| ensures i in f'[t'[i].from] && i in b'[t'[i].to] {
      if i < |t| {
        assert t'[i] == t[i];
        assert forall l: seq<nat> :: i in l ==> i in l + [|t|];
      } else {
        assert f'[tr.from][|f[tr.from]|] == i && b'[tr.to][|b[tr.to]|] == i;
      }
    }
    forall v, j | n0 <= v < |f'| && 0 <= j < |f'[v]| ensures k0 <= f'[v][j] < |t'| {
      if v != tr.from || j < |f[v]| {
        assert f'[v][j] == f[v][j];
      }
    }
    forall v, j | n0 <= v < |b'| && 0 <= j < |b'[v]| ensures k0 <= b'[v][j] < |t'| && t'[b'[v][j]].to == v {
      if v != tr.to || j < |b[v]| {
        assert b'[v][j] == b[v][j];
      }
    }
  }

  /** A fresh node for a new state keeps the lists wired. */
  lemma WiredNode(n0: nat, k0: nat, f: seq<seq<nat>>, b: seq<seq<nat>>, t: seq<Transition>, end: nat, memo: map<int, nat>, p: int)
    requires Wired(n0, k0, f, b, t, end, memo) && p !in memo
    ensures Wired(n0, k0, f + [[]], b + [[]], t, end, memo[p := |f|])
  {
    var memo' := memo[p := |f|];
    forall v | n0 <= v < |f| + 1 && v != end ensures NodeOf(memo', v) {
      if v < |f| {
        assert NodeOf(memo, v);
        var q :| q in memo && memo[q] == v;
        assert memo'[q] == v;
      } else {
        assert memo'[p] == v;
      }
    }
    forall i | k0 <= i < |t| ensures i in (f + [[]])[t[i].from] && i in (b + [[]])[t[i].to] {
    }
  }

  /** Wiring survives the memo growing. */
  lemma WiredExtends(n0: nat, k0: nat, f: seq<seq<nat>>, b: seq<seq<nat>>, t: seq<Transition>, end: nat,
                     memo: map<int, nat>, memo': map<int, nat>)
    requires Wired(n0, k0, f, b, t, end, memo) && Extends(memo, memo')
    ensures Wired(n0, k0, f, b, t, end, memo')
  {
    forall v | n0 <= v < |f| && v != end ensures NodeOf(memo', v) {
      assert NodeOf(memo, v);
      var q :| q in memo && memo[q] == v;
      assert memo'[q] == v;
    }
  }

  /** A built row stays built when its list is kept, records are only
      appended and the memo only grows. */
  lemma BuiltRowKept(d: Dfa.Dfa, f: seq<seq<nat>>, t: seq<Transition>, memo: map<int, nat>, end: nat, q: int, order: seq<char>,
                     f': seq<seq<nat>>, t': seq<Transition>, memo': map<int, nat>)
    requires BuiltRow(d, f, t, memo, end, q, order)
    requires Extends(memo, memo') && |f'| >= |f| && f'[memo[q]] == f[memo[q]] && |t'| >= |t| && t'[..|t|] == t
    ensures BuiltRow(d, f', t', memo', end, q, order)
  {
    var l, a := f[memo[q]], if q in d.accept then 1 else 0;
    assert q in memo' && memo'[q] == memo[q] && memo'[q] < |f'|;
    forall i | 0 <= i < |l| && l[i] < |t| ensures t'[l[i]] == t[l[i]] {
      assert t'[..|t|][l[i]] == t[l[i]];
    }
    if q in d.accept {
      assert t'[l[0]] == Transition(None, None, memo'[q], end);
    }
    forall i | 0 <= i < |order|
      ensures d.edges[q][order[i]] in memo' && l[a + i] < |t'|
      ensures t'[l[a + i]] == Transition(Some(order[i]), None, memo'[q], memo'[d.edges[q][order[i]]])
    {
      var p := d.edges[q][order[i]];
      assert p in memo && memo'[p] == memo[p];
      assert t'[l[a + i]] == t[l[a + i]];
    }
    assert PartRow(d, f'[memo'[q]], t', memo', end, q, memo'[q], order);
  }

  /** Popping the last queued state makes it busy. */
  lemma ConvPop(d: Dfa.Dfa, n0: nat, f: seq<seq<nat>>, t: seq<Transition>, end: nat,
                memo: map<int, nat>, frontier: seq<int>, ord: map<int, seq<char>>)
    requires ConvState(d, n0, f, t, end, memo, frontier, {}, ord) && |frontier| > 0
    ensures var q := frontier[|frontier| - 1];
      && q in memo && f[memo[q]] == []
      && ConvState(d, n0, f, t, end, memo, frontier[..|frontier| - 1], {q}, ord)
  {
    var q, rest := frontier[|frontier| - 1], frontier[..|frontier| - 1];
    assert frontier == rest + [q];
    assert forall k | 0 <= k < |rest| :: rest[k] == frontier[k] && frontier[k] != q;
  }

  /** A new state met by `idGet` gets a fresh node at the back of the queue. */
  lemma ConvNew(d: Dfa.Dfa, n0: nat, f: seq<seq<nat>>, t: seq<Transition>, end: nat,
                memo: map<int, nat>, frontier: seq<int>, busy: set<int>, ord: map<int, seq<char>>, p: int)
    requires ConvState(d, n0, f, t, end, memo, frontier, busy, ord) && p !in memo && p in d.edges && busy <= memo.Keys
    ensures ConvState(d, n0, f + [[]], t, end, memo[p := |f|], frontier + [p], busy, ord)
  {
    var f', memo', fr' := f + [[]], memo[p := |f|], frontier + [p];
    forall q | q in memo' && q !in fr' && q !in busy ensures q in ord && BuiltRow(d, f', t, memo', end, q, ord[q]) {
      assert q in memo && q !in frontier;
      BuiltRowKept(d, f, t, memo, end, q, ord[q], f', t, memo');
    }
    forall k | 0 <= k < |fr'| ensures fr'[k] in memo' && f'[memo'[fr'[k]]] == [] && fr'[k] !in busy {
      if k < |frontier| {
        assert fr'[k] == frontier[k];
      }
    }
  }

  /** A move appended to the node of the busy state keeps the other rows. */
  lemma ConvEdge(d: Dfa.Dfa, n0: nat, f: seq<seq<nat>>, t: seq<Transition>, end: nat,
                 memo: map<int, nat>, frontier: seq<int>, q: int, ord: map<int, seq<char>>, tr: Transition)
    requires ConvState(d, n0, f, t, end, memo, frontier, {q}, ord) && q in memo
    ensures ConvState(d, n0, f[memo[q] := f[memo[q]] + [|t|]], t + [tr], end, memo, frontier, {q}, ord)
  {
    var f', t' := f[memo[q] := f[memo[q]] + [|t|]], t + [tr];
    forall r | r in memo && r !in frontier && r != q ensures r in ord && BuiltRow(d, f', t', memo, end, r, ord[r]) {
      BuiltRowKept(d, f, t, memo, end, r, ord[r], f', t', memo);
    }
    forall k | 0 <= k < |frontier| ensures f'[memo[frontier[k]]] == [] {
      assert frontier[k] != q;
    }
  }

  /** Once the busy state's row is built, it is no longer busy. */
  lemma ConvRelease(d: Dfa.Dfa, n0: nat, f: seq<seq<nat>>, t: seq<Transition>, end: nat,
                    memo: map<int, nat>, frontier: seq<int>, q: int, ord: map<int, seq<char>>, order: seq<char>)
    requires ConvState(d, n0, f, t, end, memo, frontier, {q}, ord) && BuiltRow(d, f, t, memo, end, q, order)
    ensures ConvState(d, n0, f, t, end, memo, frontier, {}, ord[q := order])
  {
  }

  /** Appending the move on `k` to the partial row of `q`. */
  lemma PartRowStep(d: Dfa.Dfa, l: seq<nat>, t: seq<Transition>, memo: map<int, nat>, end: nat,
                    q: int, us: nat, order: seq<char>, k: char, memo': map<int, nat>)
    requires PartRow(d, l, t, memo, end, q, us, order) && Extends(memo, memo')
    requires k in d.edges[q] && k !in order && d.edges[q][k] in memo'
    requires forall i | 0 <= i < |l| :: l[i] < |t|
    ensures PartRow(d, l + [|t|], t + [Transition(Some(k), None, us, memo'[d.edges[q][k]])], memo', end, q, us, order + [k])
  {
    var a := if q in d.accept then 1 else 0;
    var tr := Transition(Some(k), None, us, memo'[d.edges[q][k]]);
    var l', t', o' := l + [|t|], t + [tr], order + [k];
    assert t'[l'[a + |order|]] == tr;
  }

  /** The accepting move, when there is one, opens the row. */
  lemma PartRowStart(d: Dfa.Dfa, l: seq<nat>, t: seq<Transition>, memo: map<int, nat>, end: nat, q: int, us: nat)
    requires q in d.edges
    requires q in d.accept ==> |l| == 1 && l[0] < |t| && t[l[0]] == Transition(None, None, us, end)
    requires q !in d.accept ==> l == []
    ensures PartRow(d, l, t, memo, end, q, us, [])
  {
  }

  /** The row loop of `dfaToNfa`: one move from `us` per transition of
      `state`, to the node of its target, fetched by `idGet`. */
  method BuildRow(arena: Arena, d: Dfa.Dfa, ghost n0: nat, ghost t0: seq<Transition>, end: nat, state: int, us: nat,
                  states0: map<int, nat>, frontier0: seq<int>, ghost ord: map<int, seq<char>>)
    returns (states: map<int, nat>, frontier: seq<int>, ghost order: seq<char>)
    requires arena.Valid() && Dfa.Valid(d) && |arena.forward| >= n0 && |arena.trans| >= |t0| && arena.trans[..|t0|] == t0
    requires ConvState(d, n0, arena.forward, arena.trans, end, states0, frontier0, {state}, ord)
    requires state in states0 && us == states0[state]
    requires PartRow(d, arena.forward[us], arena.trans, states0, end, state, us, [])
    requires forall i | 0 <= i < |arena.forward[us]| :: arena.forward[us][i] < |arena.trans|
    requires LooksFrom(t0, arena.trans) && Wired(n0, |t0|, arena.forward, arena.back, arena.trans, end, states0)
    modifies arena
    ensures arena.Valid() && |arena.forward| >= old(|arena.forward|)
    ensures arena.forward[..n0] == old(arena.forward[..n0]) && arena.back[..n0] == old(arena.back[..n0])
    ensures |arena.trans| >= |t0| && arena.trans[..|t0|] == t0
    ensures Extends(states0, states) && Grown(states0, frontier0, frontier)
    ensures ConvState(d, n0, arena.forward, arena.trans, end, states, frontier, {state}, ord)
    ensures BuiltRow(d, arena.forward, arena.trans, states, end, state, order)
    ensures LooksFrom(t0, arena.trans) && Wired(n0, |t0|, arena.forward, arena.back, arena.trans, end, states)
  {
    states, frontier, order := states0, frontier0, [];
    var row := d.edges[state];
    var todo := row.Keys;
    while todo != {}
      invariant arena.Valid() && |arena.forward| >= old(|arena.forward|)
      invariant arena.forward[..n0] == old(arena.forward[..n0]) && arena.back[..n0] == old(arena.back[..n0])
      invariant |arena.trans| >= |t0| && arena.trans[..|t0|] == t0
      invariant Extends(states0, states) && Grown(states0, frontier0, frontier)
      invariant ConvState(d, n0, arena.forward, arena.trans, end, states, frontier, {state}, ord)
      invariant state in states && us == states[state]
      invariant PartRow(d, arena.forward[us], arena.trans, states, end, state, us, order)
      invariant forall i | 0 <= i < |arena.forward[us]| :: arena.forward[us][i] < |arena.trans|
      invariant todo <= row.Keys && forall k | k in row :: k in order || k in todo
      invariant forall k | k in todo :: k !in order
      invariant LooksFrom(t0, arena.trans) && Wired(n0, |t0|, arena.forward, arena.back, arena.trans, end, states)
      decreases |todo|
    {
      var k :| k in todo;
      ghost var states1, frontier1 := states, frontier;
      states, frontier := AddMove(arena, d, n0, t0, end, state, us, states, frontier, ord, order, k);
      GrownTrans(states0, states1, frontier0, frontier1, frontier);
      order := order + [k];
      todo := todo - {k};
    }
  }

  /** The move of `state` on `k`: a labelled record from its node to the node
      of the target state, made fresh when the target is new. */
  method AddMove(arena: Arena, d: Dfa.Dfa, ghost n0: nat, ghost t0: seq<Transition>, end: nat, state: int, us: nat,
                 states0: map<int, nat>, frontier0: seq<int>, ghost ord: map<int, seq<char>>, ghost order: seq<char>, k: char)
    returns (states: map<int, nat>, frontier: seq<int>)
    requires arena.Valid() && Dfa.Valid(d) && |arena.forward| >= n0 && |arena.trans| >= |t0| && arena.trans[..|t0|] == t0
    requires ConvState(d, n0, arena.forward, arena.trans, end, states0, frontier0, {state}, ord)
    requires state in states0 && us == states0[state]
    requires PartRow(d, arena.forward[us], arena.trans, states0, end, state, us, order)
    requires forall i | 0 <= i < |arena.forward[us]| :: arena.forward[us][i] < |arena.trans|
    requires k in d.edges[state] && k !in order && LooksFrom(t0, arena.trans)
    requires Wired(n0, |t0|, arena.forward, arena.back, arena.trans, end, states0)
    modifies arena
    ensures arena.Valid() && |arena.forward| >= old(|arena.forward|)
    ensures arena.forward[..n0] == old(arena.forward[..n0]) && arena.back[..n0] == old(arena.back[..n0])
    ensures |arena.trans| >= |t0| && arena.trans[..|t0|] == t0
    ensures Extends(states0, states) && Grown(states0, frontier0, frontier)
    ensures ConvState(d, n0, arena.forward, arena.trans, end, states, frontier, {state}, ord)
    ensures state in states && us == states[state]
    ensures PartRow(d, arena.forward[us], arena.trans, states, end, state, us, order + [k])
    ensures forall i | 0 <= i < |arena.forward[us]| :: arena.forward[us][i] < |arena.trans|
    ensures LooksFrom(t0, arena.trans)
    ensures Wired(n0, |t0|, arena.forward, arena.back, arena.trans, end, states)
  {
    ghost var fA, bA := arena.forward, arena.back;
    var to;
    to, states, frontier := StateNode(arena, d, n0, t0, end, {state}, states0, frontier0, ord, d.edges[state][k]);
    ghost var f1, b1 := arena.forward, arena.back;
    assert f1[us] == fA[us] by { assert us < |fA|; assert f1[..|fA|][us] == fA[us]; }
    assert f1[..n0] == fA[..n0] && b1[..n0] == bA[..n0] by {
      assert f1[..|fA|][..n0] == f1[..n0] && b1[..|fA|][..n0] == b1[..n0];
    }
    Move(arena, d, n0, t0, end, state, us, states0, states, frontier, ord, order, k, to);
  }

  /** The `edge(us, to, k)` itself, once the node `to` of the target is known. */
  method Move(arena: Arena, d: Dfa.Dfa, ghost n0: nat, ghost t0: seq<Transition>, end: nat, state: int, us: nat,
              ghost states0: map<int, nat>, ghost states: map<int, nat>, ghost frontier: seq<int>,
              ghost ord: map<int, seq<char>>, ghost order: seq<char>, k: char, to: nat)
    requires arena.Valid() && |arena.forward| >= n0 && |arena.trans| >= |t0| && arena.trans[..|t0|] == t0
    requires ConvState(d, n0, arena.forward, arena.trans, end, states, frontier, {state}, ord)
    requires state in states && us == states[state] && Extends(states0, states)
    requires PartRow(d, arena.forward[us], arena.trans, states0, end, state, us, order)
    requires forall i | 0 <= i < |arena.forward[us]| :: arena.forward[us][i] < |arena.trans|
    requires k in d.edges[state] && k !in order && d.edges[state][k] in states && to == states[d.edges[state][k]]
    requires LooksFrom(t0, arena.trans) && Wired(n0, |t0|, arena.forward, arena.back, arena.trans, end, states)
    modifies arena
    ensures arena.Valid() && |arena.forward| == old(|arena.forward|)
    ensures arena.forward[..n0] == old(arena.forward[..n0]) && arena.back[..n0] == old(arena.back[..n0])
    ensures |arena.trans| >= |t0| && arena.trans[..|t0|] == t0
    ensures ConvState(d, n0, arena.forward, arena.trans, end, states, frontier, {state}, ord)
    ensures PartRow(d, arena.forward[us], arena.trans, states, end, state, us, order + [k])
    ensures forall i | 0 <= i < |arena.forward[us]| :: arena.forward[us][i] < |arena.trans|
    ensures LooksFrom(t0, arena.trans)
    ensures Wired(n0, |t0|, arena.forward, arena.back, arena.trans, end, states)
  {
    ghost var f1, t1, b1 := arena.forward, arena.trans, arena.back;
    ghost var p := d.edges[state][k];
    assert n0 <= states[p] < |f1| && n0 <= states[state] < |f1|;
    PartRowStep(d, f1[us], t1, states0, end, state, us, order, k, states);
    ConvEdge(d, n0, f1, t1, end, states, frontier, state, ord, Transition(Some(k), None, us, to));
    WiredEdge(n0, |t0|, f1, b1, t1, end, states, Transition(Some(k), None, us, to));
    arena.Edge(us, to, Some(k), None, false);
    PrefixAfterAppend(t1, [Transition(Some(k), None, us, to)], |t0|);
    PrefixAfterUpdate(f1, us, f1[us] + [|t1|], n0);
    LooksFromStep(t0, t1, Transition(Some(k), None, us, to));
  }

  /** The lookup of the main loop of `dfaToNfa`: the node of state `p`,
      a fresh one, queued, when `p` is new. */
  method StateNode(arena: Arena, d: Dfa.Dfa, ghost n0: nat, ghost t0: seq<Transition>, ghost end: nat, ghost busy: set<int>,
                   states0: map<int, nat>, frontier0: seq<int>, ghost ord: map<int, seq<char>>, p: int)
    returns (v: nat, states: map<int, nat>, frontier: seq<int>)
    requires arena.Valid() && |arena.forward| >= n0 && |arena.trans| >= |t0| && arena.trans[..|t0|] == t0
    requires ConvState(d, n0, arena.forward, arena.trans, end, states0, frontier0, busy, ord)
    requires p in d.edges && busy <= states0.Keys && Wired(n0, |t0|, arena.forward, arena.back, arena.trans, end, states0)
    modifies arena
    ensures arena.Valid() && |arena.forward| >= old(|arena.forward|) && arena.trans == old(arena.trans)
    ensures Wired(n0, |t0|, arena.forward, arena.back, arena.trans, end, states)
    ensures arena.forward[..old(|arena.forward|)] == old(arena.forward) && arena.back[..old(|arena.forward|)] == old(arena.back)
    ensures Extends(states0, states) && Grown(states0, frontier0, frontier)
    ensures p in states && states[p] == v && busy <= states.Keys
    ensures ConvState(d, n0, arena.forward, arena.trans, end, states, frontier, busy, ord)
  {
    ghost var f0, b0 := arena.forward, arena.back;
    if p !in states0 {
      ConvNew(d, n0, arena.forward, arena.trans, end, states0, frontier0, busy, ord, p);
      WiredNode(n0, |t0|, arena.forward, arena.back, arena.trans, end, states0, p);
    }
    v, states, frontier := arena.GetNode(states0, frontier0, p);
    GrownBy(states0, frontier0, p);
    PrefixAfterAppend(f0, [[]], |f0|);
    PrefixAfterAppend(b0, [[]], |b0|);
  }

  /** One iteration of the main loop of `dfaToNfa`: pop a state, add the
      accepting move when it accepts, then its row. */
  method ConvStep(arena: Arena, d: Dfa.Dfa, ghost n0: nat, ghost t0: seq<Transition>, end: nat,
                  states0: map<int, nat>, frontier0: seq<int>, ghost ord0: map<int, seq<char>>)
    returns (states: map<int, nat>, frontier: seq<int>, ghost ord: map<int, seq<char>>)
    requires arena.Valid() && Dfa.Valid(d) && |arena.forward| >= n0 && |arena.trans| >= |t0| && arena.trans[..|t0|] == t0
    requires ConvState(d, n0, arena.forward, arena.trans, end, states0, frontier0, {}, ord0) && |frontier0| > 0
    requires LooksFrom(t0, arena.trans) && Wired(n0, |t0|, arena.forward, arena.back, arena.trans, end, states0)
    modifies arena
    ensures arena.Valid() && |arena.forward| >= old(|arena.forward|)
    ensures arena.forward[..n0] == old(arena.forward[..n0]) && arena.back[..n0] == old(arena.back[..n0])
    ensures |arena.trans| >= |t0| && arena.trans[..|t0|] == t0
    ensures Extends(states0, states) && (states.Keys == states0.Keys ==> |frontier| < |frontier0|)
    ensures ConvState(d, n0, arena.forward, arena.trans, end, states, frontier, {}, ord)
    ensures LooksFrom(t0, arena.trans) && Wired(n0, |t0|, arena.forward, arena.back, arena.trans, end, states)
  {
    ConvPop(d, n0, arena.forward, arena.trans, end, states0, frontier0, ord0);
    var state := frontier0[|frontier0| - 1];
    frontier := frontier0[..|frontier0| - 1];
    var us;
    us, states, frontier := arena.GetNode(states0, frontier, state);
    ghost var f1, t1, b1 := arena.forward, arena.trans, arena.back;
    if state in d.accept {
      ConvEdge(d, n0, f1, t1, end, states, frontier, state, ord0, Transition(None, None, us, end));
      WiredEdge(n0, |t0|, f1, b1, t1, end, states, Transition(None, None, us, end));
      arena.Edge(us, end, None, None, false);
      PrefixAfterAppend(t1, [Transition(None, None, us, end)], |t0|);
      PrefixAfterUpdate(f1, us, f1[us] + [|t1|], n0);
      PrefixAfterUpdate(b1, end, b1[end] + [|t1|], n0);
      LooksFromStep(t0, t1, Transition(None, None, us, end));
    }
    PartRowStart(d, arena.forward[us], arena.trans, states, end, state, us);
    ghost var order;
    ghost var frontier1 := frontier;
    states, frontier, order := BuildRow(arena, d, n0, t0, end, state, us, states, frontier, ord0);
    ConvRelease(d, n0, arena.forward, arena.trans, end, states, frontier, state, ord0, order);
    ord := ord0[state := order];
    if |frontier| > |frontier1| {
      assert frontier[|frontier| - 1] in states && frontier[|frontier| - 1] !in states0;
    }
  }

  /** What the main loop of `dfaToNfa` keeps: the nodes and records before
      the pass are untouched and the worklist state holds. */
  ghost predicate DrainOk(d: Dfa.Dfa, n0: nat, t0: seq<Transition>, f0: seq<seq<nat>>, b0: seq<seq<nat>>,
                          f: seq<seq<nat>>, b: seq<seq<nat>>, t: seq<Transition>, end: nat,
                          states0: map<int, nat>, states: map<int, nat>, frontier: seq<int>, ord: map<int, seq<char>>) {
    && |f| >= n0 && |b| >= n0 && f[..n0] == f0 && b[..n0] == b0
    && |t| >= |t0| && t[..|t0|] == t0
    && Extends(states0, states) && LooksFrom(t0, t)
    && ConvState(d, n0, f, t, end, states, frontier, {}, ord)
    && Wired(n0, |t0|, f, b, t, end, states)
  }

  /** One pass of the main loop, stated over the loop's own invariant. */
  method DrainStep(arena: Arena, d: Dfa.Dfa, ghost n0: nat, ghost t0: seq<Transition>, ghost f0: seq<seq<nat>>,
                   ghost b0: seq<seq<nat>>, end: nat, ghost base: map<int, nat>,
                   states0: map<int, nat>, frontier0: seq<int>, ghost ord0: map<int, seq<char>>)
    returns (states: map<int, nat>, frontier: seq<int>, ghost ord: map<int, seq<char>>)
    requires arena.Valid() && Dfa.Valid(d) && |frontier0| > 0
    requires DrainOk(d, n0, t0, f0, b0, arena.forward, arena.back, arena.trans, end, base, states0, frontier0, ord0)
    modifies arena
    ensures arena.Valid()
    ensures DrainOk(d, n0, t0, f0, b0, arena.forward, arena.back, arena.trans, end, base, states, frontier, ord)
    ensures states0.Keys <= states.Keys && (states.Keys == states0.Keys ==> |frontier| < |frontier0|)
  {
    states, frontier, ord := ConvStep(arena, d, n0, t0, end, states0, frontier0, ord0);
    ExtendsTrans(base, states0, states);
  }

  /** The main loop of `dfaToNfa`: pop and convert states until the queue is empty. */
  method DrainConv(arena: Arena, d: Dfa.Dfa, ghost n0: nat, ghost t0: seq<Transition>, end: nat,
                   states0: map<int, nat>, frontier0: seq<int>, ghost ord0: map<int, seq<char>>)
    returns (states: map<int, nat>, ghost ord: map<int, seq<char>>)
    requires arena.Valid() && Dfa.Valid(d) && |arena.forward| >= n0 && |arena.trans| >= |t0| && arena.trans[..|t0|] == t0
    requires ConvState(d, n0, arena.forward, arena.trans, end, states0, frontier0, {}, ord0) && LooksFrom(t0, arena.trans)
    requires Wired(n0, |t0|, arena.forward, arena.back, arena.trans, end, states0)
    modifies arena
    ensures arena.Valid()
    ensures DrainOk(d, n0, t0, old(arena.forward[..n0]), old(arena.back[..n0]), arena.forward, arena.back, arena.trans, end,
                    states0, states, [], ord)
  {
    ghost var universe := d.edges.Keys;
    ghost var f0, b0 := arena.forward[..n0], arena.back[..n0];
    var frontier := frontier0;
    states, ord := states0, ord0;
    while |frontier| > 0
      invariant arena.Valid()
      invariant DrainOk(d, n0, t0, f0, b0, arena.forward, arena.back, arena.trans, end, states0, states, frontier, ord)
      decreases |universe - states.Keys|, |frontier|
    {
      ghost var states1 := states;
      states, frontier, ord := DrainStep(arena, d, n0, t0, f0, b0, end, states0, states, frontier, ord);
      assert states.Keys <= universe by {
        forall q | q in states ensures q in universe {
          assert ConvState(d, n0, arena.forward, arena.trans, end, states, frontier, {}, ord);
        }
      }
      SubsetMeasure(universe, states1.Keys, states.Keys);
    }
  }

  /** The start of `dfaToNfa`: the node of the initial state, queued, and the final node. */
  lemma ConvStart(d: Dfa.Dfa, n0: nat, f: seq<seq<nat>>, t: seq<Transition>)
    requires |f| == n0 + 2 && f[n0] == [] && f[n0 + 1] == [] && d.initial in d.edges
    ensures ConvState(d, n0, f, t, n0 + 1, map[d.initial := n0], [d.initial], {}, map[])
  {
  }

  /** Before any row is built, the two new nodes have empty lists. */
  lemma WiredStart(n0: nat, k0: nat, f: seq<seq<nat>>, b: seq<seq<nat>>, t: seq<Transition>, q: int)
    requires |f| == |b| == n0 + 2 && k0 == |t| && f[n0] == [] && f[n0 + 1] == [] && b[n0] == [] && b[n0 + 1] == []
    ensures Wired(n0, k0, f, b, t, n0 + 1, map[q := n0])
  {
    assert map[q := n0][q] == n0;
  }

  /** `dfaToNfa`: a node per state reachable from the initial one, found by a
      worklist, with its transitions as moves and, when the state accepts,
      an epsilon move to the final node `end`; `memo` maps each state met to
      its node and `ord` records the order its row was walked. */
  method DfaToNfa(arena: Arena, d: Dfa.Dfa) returns (r: Frag, ghost memo: map<int, nat>, ghost ord: map<int, seq<char>>)
    requires arena.Valid() && Dfa.Valid(d)
    modifies arena
    ensures arena.Valid()
    ensures |arena.forward| >= old(|arena.forward|) + 2
    ensures arena.forward[..old(|arena.forward|)] == old(arena.forward) && arena.back[..old(|arena.forward|)] == old(arena.back)
    ensures |arena.trans| >= old(|arena.trans|) && arena.trans[..old(|arena.trans|)] == old(arena.trans)
    ensures d.initial in memo && r == Frag(memo[d.initial], old(|arena.forward|) + 1)
    ensures ConvState(d, old(|arena.forward|), arena.forward, arena.trans, r.end, memo, [], {}, ord)
    ensures Wired(old(|arena.forward|), old(|arena.trans|), arena.forward, arena.back, arena.trans, r.end, memo)
    ensures Looks(arena.trans) == Looks(old(arena.trans))
  {
    ghost var n0, t0, f0, b0 := |arena.forward|, arena.trans, arena.forward, arena.back;
    var states: map<int, nat>, frontier: seq<int> := map[], [];
    var start;
    start, states, frontier := arena.GetNode(states, frontier, d.initial);
    var end := arena.Empty();
    ConvStart(d, n0, arena.forward, arena.trans);
    WiredStart(n0, |t0|, arena.forward, arena.back, arena.trans, d.initial);
    assert arena.forward[..n0] == f0 && arena.back[..n0] == b0;
    assert states[d.initial] == start;
    assert LooksFrom(t0, arena.trans);
    states, ord := DrainConv(arena, d, n0, t0, end, states, frontier, map[]);
    assert arena.forward[..n0] == f0 && arena.back[..n0] == b0;
    LooksFromKept(t0, arena.trans);
    r, memo := Frag(start, end), states;
  }

  /** The nodes of the states of `qs` that the worklist met. */
  ghost function NodesOf(memo: map<int, nat>, qs: set<int>): set<nat> {
    set q | q in qs && q in memo :: memo[q]
  }

  /** The states met that move on `ch` into `qs`. */
  ghost function Pre(d: Dfa.Dfa, memo: map<int, nat>, qs: set<int>, ch: char): set<int> {
    set p | p in memo && p in d.edges && ch in d.edges[p] && d.edges[p][ch] in qs
  }

  /** The graph `dfaToNfa` leaves once its queue is empty, with `n0` and `k0`
      the numbers of nodes and records before it ran. */
  ghost predicate Rebuilt(d: Dfa.Dfa, n0: nat, k0: nat, f: seq<seq<nat>>, b: seq<seq<nat>>, t: seq<Transition>,
                          end: nat, memo: map<int, nat>, ord: map<int, seq<char>>) {
    && Dfa.Valid(d) && d.initial in memo
    && ConvState(d, n0, f, t, end, memo, [], {}, ord)
    && Wired(n0, k0, f, b, t, end, memo)
    && Subset.GraphOk(Subset.Graph(b, t))
  }

  /** Every record the conversion made is the accepting move of a state or
      the move of a state on one of its characters. */
  lemma RecordOf(d: Dfa.Dfa, n0: nat, k0: nat, f: seq<seq<nat>>, b: seq<seq<nat>>, t: seq<Transition>,
                 end: nat, memo: map<int, nat>, ord: map<int, seq<char>>, i: nat) returns (p: int)
    requires Rebuilt(d, n0, k0, f, b, t, end, memo, ord) && k0 <= i < |t|
    ensures p in memo && p in d.edges && t[i].from == memo[p] && t[i].look.None?
    ensures t[i].at.None? ==> t[i].to == end && p in d.accept
    ensures t[i].at.Some? ==> && t[i].at.value in d.edges[p] && d.edges[p][t[i].at.value] in memo
                              && t[i].to == memo[d.edges[p][t[i].at.value]]
  {
    var u := t[i].from;
    assert i in f[u];
    assert u != end;
    assert NodeOf(memo, u);
    p :| p in memo && memo[p] == u;
    assert BuiltRow(d, f, t, memo, end, p, ord[p]);
    var l, order := f[u], ord[p];
    var j :| 0 <= j < |l| && l[j] == i;
    var a := if p in d.accept then 1 else 0;
    if j >= a {
      assert t[l[a + (j - a)]] == Transition(Some(order[j - a]), None, u, memo[d.edges[p][order[j - a]]]);
    }
  }

  /** A move of a state on a character of its row is listed by its target. */
  lemma RowRecord(d: Dfa.Dfa, n0: nat, k0: nat, f: seq<seq<nat>>, b: seq<seq<nat>>, t: seq<Transition>,
                  end: nat, memo: map<int, nat>, ord: map<int, seq<char>>, p: int, ch: char) returns (j: nat)
    requires Rebuilt(d, n0, k0, f, b, t, end, memo, ord) && p in memo && p in d.edges && ch in d.edges[p]
    ensures d.edges[p][ch] in memo && j < |b[memo[d.edges[p][ch]]]|
    ensures b[memo[d.edges[p][ch]]][j] < |t| && t[b[memo[d.edges[p][ch]]][j]] == Transition(Some(ch), None, memo[p], memo[d.edges[p][ch]])
  {
    assert BuiltRow(d, f, t, memo, end, p, ord[p]);
    var l, order := f[memo[p]], ord[p];
    var a := if p in d.accept then 1 else 0;
    var k :| 0 <= k < |order| && order[k] == ch;
    var i := l[a + k];
    assert t[i] == Transition(Some(ch), None, memo[p], memo[d.edges[p][ch]]);
    assert k0 <= i;
    assert i in b[t[i].to];
    j :| 0 <= j < |b[memo[d.edges[p][ch]]]| && b[memo[d.edges[p][ch]]][j] == i;
  }

  /** No epsilon move enters the node of a state. */
  lemma NoEpsilonIn(d: Dfa.Dfa, n0: nat, k0: nat, f: seq<seq<nat>>, b: seq<seq<nat>>, t: seq<Transition>,
                    end: nat, memo: map<int, nat>, ord: map<int, seq<char>>, q: int)
    requires Rebuilt(d, n0, k0, f, b, t, end, memo, ord) && q in memo
    ensures memo[q] < |b| && Subset.EpsTargets(Subset.Graph(b, t), memo[q]) == {}
  {
    var g, v := Subset.Graph(b, t), memo[q];
    if y :| y in Subset.EpsTargets(g, v) {
      var j :| 0 <= j < |b[v]| && Subset.Arcs(g, v)[j].at.None? && Subset.Arcs(g, v)[j].to == y;
      var p := RecordOf(d, n0, k0, f, b, t, end, memo, ord, b[v][j]);
      assert false;
    }
  }

  /** The epsilon moves entering the final node come from the nodes of the
      accepting states. */
  lemma EpsilonIntoEnd(d: Dfa.Dfa, n0: nat, k0: nat, f: seq<seq<nat>>, b: seq<seq<nat>>, t: seq<Transition>,
                       end: nat, memo: map<int, nat>, ord: map<int, seq<char>>)
    requires Rebuilt(d, n0, k0, f, b, t, end, memo, ord)
    ensures end < |b| && Subset.EpsTargets(Subset.Graph(b, t), end) == NodesOf(memo, d.accept)
  {
    var g := Subset.Graph(b, t);
    forall y | y in Subset.EpsTargets(g, end) ensures y in NodesOf(memo, d.accept) {
      var j :| 0 <= j < |b[end]| && Subset.Arcs(g, end)[j].at.None? && Subset.Arcs(g, end)[j].to == y;
      var p := RecordOf(d, n0, k0, f, b, t, end, memo, ord, b[end][j]);
    }
    forall y | y in NodesOf(memo, d.accept) ensures y in Subset.EpsTargets(g, end) {
      var p :| p in d.accept && p in memo && memo[p] == y;
      assert BuiltRow(d, f, t, memo, end, p, ord[p]);
      var i := f[memo[p]][0];
      assert t[i] == Transition(None, None, memo[p], end);
      assert k0 <= i;
      assert i in b[t[i].to];
      var j :| 0 <= j < |b[end]| && b[end][j] == i;
      assert Subset.Arcs(g, end)[j] == Arc(None, None, y);
    }
  }

  /** Read backwards, a move on `ch` from the nodes of `qs` (or the final
      node) leads to the node of a state with a move on `ch` into `qs`. */
  lemma TargetsInPre(d: Dfa.Dfa, n0: nat, k0: nat, f: seq<seq<nat>>, b: seq<seq<nat>>, t: seq<Transition>,
                     end: nat, memo: map<int, nat>, ord: map<int, seq<char>>, qs: set<int>, e: set<nat>, ch: char, y: nat)
    requires Rebuilt(d, n0, k0, f, b, t, end, memo, ord) && qs <= memo.Keys && e <= {end}
    requires y in Subset.Targets(Subset.Graph(b, t), NodesOf(memo, qs) + e, ch)
    ensures y in NodesOf(memo, Pre(d, memo, qs, ch))
  {
    var g, S := Subset.Graph(b, t), NodesOf(memo, qs) + e;
    var x, j :| x in S && x < |g.d| && 0 <= j < |g.d[x]| && Subset.Arcs(g, x)[j].at == Some(ch) && Subset.Arcs(g, x)[j].to == y;
    assert n0 <= x;
    var i := b[x][j];
    assert Subset.Arcs(g, x)[j] == ArcOf(t[i], true) && t[i].to == x;
    assert t[i].at == Some(ch);
    var p := RecordOf(d, n0, k0, f, b, t, end, memo, ord, i);
    var q0 := d.edges[p][ch];
    assert q0 in memo;
    assert ConvState(d, n0, f, t, end, memo, [], {}, ord);
    assert memo[q0] != end;
    var q :| q in qs && q in memo && memo[q] == x;
    assert d.edges[p][ch] == q;
    assert p in Pre(d, memo, qs, ch);
  }

  /** Conversely, the node of each such state is reached that way. */
  lemma PreInTargets(d: Dfa.Dfa, n0: nat, k0: nat, f: seq<seq<nat>>, b: seq<seq<nat>>, t: seq<Transition>,
                     end: nat, memo: map<int, nat>, ord: map<int, seq<char>>, qs: set<int>, e: set<nat>, ch: char, p: int)
    requires Rebuilt(d, n0, k0, f, b, t, end, memo, ord) && qs <= memo.Keys && e <= {end}
    requires p in Pre(d, memo, qs, ch)
    ensures memo[p] in Subset.Targets(Subset.Graph(b, t), NodesOf(memo, qs) + e, ch)
  {
    var g, S := Subset.Graph(b, t), NodesOf(memo, qs) + e;
    var j := RowRecord(d, n0, k0, f, b, t, end, memo, ord, p, ch);
    var q := d.edges[p][ch];
    assert q in qs && q in memo;
    var x := memo[q];
    assert x in NodesOf(memo, qs);
    assert Subset.Arcs(g, x)[j] == Arc(Some(ch), None, memo[p]);
  }

  /** Read backwards, the moves on `ch` from the nodes of `qs` (and perhaps
      the final node) lead exactly to the nodes of the states with a move on
      `ch` into `qs`. */
  lemma TargetsArePre(d: Dfa.Dfa, n0: nat, k0: nat, f: seq<seq<nat>>, b: seq<seq<nat>>, t: seq<Transition>,
                      end: nat, memo: map<int, nat>, ord: map<int, seq<char>>, qs: set<int>, e: set<nat>, ch: char)
    requires Rebuilt(d, n0, k0, f, b, t, end, memo, ord) && qs <= memo.Keys && e <= {end}
    ensures Subset.Targets(Subset.Graph(b, t), NodesOf(memo, qs) + e, ch) == NodesOf(memo, Pre(d, memo, qs, ch))
  {
    var T := Subset.Targets(Subset.Graph(b, t), NodesOf(memo, qs) + e, ch);
    forall y | y in T ensures y in NodesOf(memo, Pre(d, memo, qs, ch)) {
      TargetsInPre(d, n0, k0, f, b, t, end, memo, ord, qs, e, ch, y);
    }
    forall y | y in NodesOf(memo, Pre(d, memo, qs, ch)) ensures y in T {
      var p :| p in Pre(d, memo, qs, ch) && p in memo && memo[p] == y;
      PreInTargets(d, n0, k0, f, b, t, end, memo, ord, qs, e, ch, p);
    }
  }

  /** The nodes of a set of states are their own epsilon closure. */
  lemma ClosureOfNodes(d: Dfa.Dfa, n0: nat, k0: nat, f: seq<seq<nat>>, b: seq<seq<nat>>, t: seq<Transition>,
                       end: nat, memo: map<int, nat>, ord: map<int, seq<char>>, qs: set<int>)
    requires Rebuilt(d, n0, k0, f, b, t, end, memo, ord)
    ensures Subset.IsClosure(Subset.Graph(b, t), NodesOf(memo, qs), NodesOf(memo, qs))
  {
    var g, c := Subset.Graph(b, t), NodesOf(memo, qs);
    forall x | x in c ensures x < |g.d| && Subset.EpsTargets(g, x) <= c {
      var q :| q in qs && q in memo && memo[q] == x;
      NoEpsilonIn(d, n0, k0, f, b, t, end, memo, ord, q);
    }
    var rank := map x | x in c :: 0;
    assert Subset.Certified(g, c, c, rank, map[]);
  }

  /** The closure of the final node adds the nodes of the accepting states. */
  lemma ClosureOfEnd(d: Dfa.Dfa, n0: nat, k0: nat, f: seq<seq<nat>>, b: seq<seq<nat>>, t: seq<Transition>,
                     end: nat, memo: map<int, nat>, ord: map<int, seq<char>>)
    requires Rebuilt(d, n0, k0, f, b, t, end, memo, ord)
    ensures Subset.IsClosure(Subset.Graph(b, t), {end}, NodesOf(memo, d.accept) + {end})
  {
    var g, acc := Subset.Graph(b, t), NodesOf(memo, d.accept);
    var c := acc + {end};
    EpsilonIntoEnd(d, n0, k0, f, b, t, end, memo, ord);
    forall x | x in acc ensures x < |g.d| && Subset.EpsTargets(g, x) <= c {
      var q :| q in d.accept && q in memo && memo[q] == x;
      NoEpsilonIn(d, n0, k0, f, b, t, end, memo, ord, q);
    }
    var rank := map x | x in c :: if x == end then 0 else 1;
    var par := map x | x in acc :: end;
    assert Subset.Certified(g, {end}, c, rank, par);
  }

  /** Walking from a state met stays among the states met. */
  lemma {:induction false} WalkAmongMet(d: Dfa.Dfa, n0: nat, k0: nat, f: seq<seq<nat>>, b: seq<seq<nat>>, t: seq<Transition>,
                                        end: nat, memo: map<int, nat>, ord: map<int, seq<char>>, q: int, w: seq<char>)
    requires Rebuilt(d, n0, k0, f, b, t, end, memo, ord) && q in memo
    ensures Dfa.Walk(d.edges, q, w).Some? ==> Dfa.Walk(d.edges, q, w).value in memo
    decreases |w|
  {
    if |w| > 0 && q in d.edges && w[0] in d.edges[q] {
      assert BuiltRow(d, f, t, memo, end, q, ord[q]);
      var order := ord[q];
      var k :| 0 <= k < |order| && order[k] == w[0];
      WalkAmongMet(d, n0, k0, f, b, t, end, memo, ord, d.edges[q][w[0]], w[1..]);
    }
  }

  /** `w` leads the acceptor from its initial state into `qs`. */
  ghost predicate WalksInto(d: Dfa.Dfa, w: seq<char>, qs: set<int>) {
    Dfa.Walk(d.edges, d.initial, w).Some? && Dfa.Walk(d.edges, d.initial, w).value in qs
  }

  /** Reversed, `w` leads into `qs` exactly when its tail, reversed, leads
      to a state with a move on `w[0]` into `qs`. */
  lemma WalkPre(d: Dfa.Dfa, n0: nat, k0: nat, f: seq<seq<nat>>, b: seq<seq<nat>>, t: seq<Transition>,
                end: nat, memo: map<int, nat>, ord: map<int, seq<char>>, qs: set<int>, w: seq<char>)
    requires Rebuilt(d, n0, k0, f, b, t, end, memo, ord) && |w| > 0
    ensures WalksInto(d, Dfa.Reverse(w), qs) <==> WalksInto(d, Dfa.Reverse(w[1..]), Pre(d, memo, qs, w[0]))
  {
    var ch := w[0];
    Dfa.ReverseFirst(w);
    Dfa.WalkConcat(d.edges, d.initial, Dfa.Reverse(w[1..]), [ch]);
    var mid := Dfa.Walk(d.edges, d.initial, Dfa.Reverse(w[1..]));
    if mid.Some? {
      WalkAmongMet(d, n0, k0, f, b, t, end, memo, ord, d.initial, Dfa.Reverse(w[1..]));
      assert [ch][1..] == [];
    }
  }

  /** From a set whose closure is the nodes of `qs` (and perhaps the final
      node), the graph read backwards accepts `w` exactly when `w` reversed
      leads the acceptor from its initial state into `qs`. */
  lemma {:induction false} BackwardsWalk(d: Dfa.Dfa, n0: nat, k0: nat, f: seq<seq<nat>>, b: seq<seq<nat>>, t: seq<Transition>,
                                         end: nat, memo: map<int, nat>, ord: map<int, seq<char>>,
                                         qs: set<int>, e: set<nat>, S: set<nat>, w: seq<char>)
    requires Rebuilt(d, n0, k0, f, b, t, end, memo, ord) && qs <= memo.Keys && e <= {end}
    requires Subset.IsClosure(Subset.Graph(b, t), S, NodesOf(memo, qs) + e)
    ensures Subset.RevAccepts(Subset.Graph(b, t), S, w, memo[d.initial]) <==> WalksInto(d, Dfa.Reverse(w), qs)
    decreases |w|, 1
  {
    var g, c := Subset.Graph(b, t), NodesOf(memo, qs) + e;
    forall c' | Subset.IsClosure(g, S, c') ensures c' == c {
      Subset.ClosureUnique(g, S, c, c');
    }
    if |w| == 0 {
      assert memo[d.initial] != end;
      assert memo[d.initial] in c <==> d.initial in qs;
    } else {
      BackwardsStep(d, n0, k0, f, b, t, end, memo, ord, qs, e, w);
    }
  }

  /** The step of `BackwardsWalk` for a non-empty word. */
  lemma {:induction false} BackwardsStep(d: Dfa.Dfa, n0: nat, k0: nat, f: seq<seq<nat>>, b: seq<seq<nat>>, t: seq<Transition>,
                                         end: nat, memo: map<int, nat>, ord: map<int, seq<char>>,
                                         qs: set<int>, e: set<nat>, w: seq<char>)
    requires Rebuilt(d, n0, k0, f, b, t, end, memo, ord) && qs <= memo.Keys && e <= {end} && |w| > 0
    ensures var g, c := Subset.Graph(b, t), NodesOf(memo, qs) + e;
      (w[0] in Subset.Moves(g, c) && Subset.RevAccepts(g, Subset.Moves(g, c)[w[0]], w[1..], memo[d.initial]))
      <==> WalksInto(d, Dfa.Reverse(w), qs)
    decreases |w|, 0
  {
    var g, c := Subset.Graph(b, t), NodesOf(memo, qs) + e;
    var ch := w[0];
    var pre := Pre(d, memo, qs, ch);
    TargetsArePre(d, n0, k0, f, b, t, end, memo, ord, qs, e, ch);
    Subset.LabelsHaveTargets(g, c, ch);
    assert ch in Subset.Moves(g, c) <==> ch in Subset.Labels(g, c);
    assert ch in Subset.Labels(g, c) <==> Subset.Targets(g, c, ch) != {};
    assert Subset.Targets(g, c, ch) == NodesOf(memo, pre);
    assert ch in Subset.Moves(g, c) <==> pre != {} by {
      if pre != {} {
        Inhabited(pre);
        var p :| p in pre;
        assert memo[p] in NodesOf(memo, pre);
      }
    }
    ClosureOfNodes(d, n0, k0, f, b, t, end, memo, ord, pre);
    assert NodesOf(memo, pre) + {} == NodesOf(memo, pre);
    BackwardsWalk(d, n0, k0, f, b, t, end, memo, ord, pre, {}, NodesOf(memo, pre), w[1..]);
    WalkPre(d, n0, k0, f, b, t, end, memo, ord, qs, w);
  }

  /** The graph `dfaToNfa` builds, read backwards from its final node as
      `toDfaRev` reads it, accepts exactly the reversed words of `d`. */
  lemma RebuiltReversed(d: Dfa.Dfa, n0: nat, k0: nat, f: seq<seq<nat>>, b: seq<seq<nat>>, t: seq<Transition>,
                        end: nat, memo: map<int, nat>, ord: map<int, seq<char>>, w: seq<char>)
    requires Rebuilt(d, n0, k0, f, b, t, end, memo, ord)
    ensures Subset.RevAccepts(Subset.Graph(b, t), {end}, w, memo[d.initial]) <==> Dfa.Accepts(d, Dfa.Reverse(w))
  {
    ClosureOfEnd(d, n0, k0, f, b, t, end, memo, ord);
    var acc := set q | q in d.accept && q in memo;
    assert NodesOf(memo, acc) == NodesOf(memo, d.accept);
    BackwardsWalk(d, n0, k0, f, b, t, end, memo, ord, acc, {end}, {end}, w);
    var r := Dfa.Walk(d.edges, d.initial, Dfa.Reverse(w));
    if r.Some? {
      WalkAmongMet(d, n0, k0, f, b, t, end, memo, ord, d.initial, Dfa.Reverse(w));
    }
  }
}
