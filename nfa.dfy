/** The Thompson-style NFA graph of `diff.js`: states with `forward`/`back`
    transition lists, shared transition records, and the fragment builders
    `empty`, `idNfa`, `edge`, `nfaClass`, `nfaAppend` and `nfaClone`.

    The JS nodes are objects numbered by the global counter `id`; here they are
    the indices of an arena, so the next id is the arena's size. A transition
    record is shared between its source's `forward` list and its target's
    `back` list, and `nfaAppend` rewrites its `from` in place; here records live
    in `trans` and the lists hold their indices. */
module Nfa {
  import opened Base
  import opened RegexAst
  import Dfa

  /** The assertion `{rev, body}` carried by a lookaround transition. */
  datatype Look = Look(rev: bool, body: Dfa.Dfa)

  /** A transition record `{at, assert, from, to}` (`look` is `assert`);
      `at == None` is an epsilon move. */
  datatype Transition = Transition(at: Option<char>, look: Option<Look>, from: nat, to: nat)

  /** An entry of `edges(x, rev)`: a transition seen from `x` in direction `rev`. */
  datatype Arc = Arc(at: Option<char>, look: Option<Look>, to: nat)

  /** An NFA fragment `{start, end}`. */
  datatype Frag = Frag(start: nat, end: nat)

  /** `begin`: where a pass in direction `rev` starts. */
  function Begin(x: Frag, rev: bool): nat { if rev then x.end else x.start }

  /** `final`: where a pass in direction `rev` ends. */
  function Final(x: Frag, rev: bool): nat { if rev then x.start else x.end }

  /** `over`: the fragment that a pass in direction `rev` from `x` to `y` describes. */
  function Over(x: nat, y: nat, rev: bool): (r: Frag)
    ensures Begin(r, rev) == x && Final(r, rev) == y
  {
    if rev then Frag(y, x) else Frag(x, y)
  }

  /** A record seen in direction `rev`: its far end is `to`, or `from` when `rev`. */
  function ArcOf(tr: Transition, rev: bool): Arc {
    Arc(tr.at, tr.look, if rev then tr.from else tr.to)
  }

  /** The records listed in `l`, seen in direction `rev`. */
  function ArcsOf(l: seq<nat>, t: seq<Transition>, rev: bool): (r: seq<Arc>)
    requires forall i | 0 <= i < |l| :: l[i] < |t|
    ensures |r| == |l| && forall i | 0 <= i < |l| :: r[i] == ArcOf(t[l[i]], rev)
  {
    seq(|l|, i requires 0 <= i < |l| => ArcOf(t[l[i]], rev))
  }

  /** The lists a pass in direction `rev` follows: `forward`, or `back` when `rev`. */
  function Dir(f: seq<seq<nat>>, b: seq<seq<nat>>, rev: bool): seq<seq<nat>> {
    if rev then b else f
  }

  /** The transition records with indices in `ids` get source `x`; the others are kept. */
  function Redirected(trans: seq<Transition>, ids: seq<nat>, x: nat): (r: seq<Transition>)
    ensures |r| == |trans|
    ensures forall t | 0 <= t < |trans| :: r[t] == if t in ids then trans[t].(from := x) else trans[t]
  {
    seq(|trans|, t requires 0 <= t < |trans| => if t in ids then trans[t].(from := x) else trans[t])
  }

  /** The assertions carried by the records `ts`. */
  ghost function Looks(ts: seq<Transition>): set<Look> {
    set i | 0 <= i < |ts| && ts[i].look.Some? :: ts[i].look.value
  }

  /** Assertion bodies are valid acceptors, and two of them are either the
      same acceptor or use disjoint state ids: every body is compiled with
      fresh ids from the global counter, and copies share their body. */
  ghost predicate Coherent(looks: set<Look>) {
    && (forall l | l in looks :: Dfa.Valid(l.body))
    && (forall l1, l2 | l1 in looks && l2 in looks :: l1.body == l2.body || l1.body.edges.Keys !! l2.body.edges.Keys)
  }

  /** Every record past `t0` carries no assertion or one already carried in `t0`. */
  ghost predicate LooksFrom(t0: seq<Transition>, t: seq<Transition>) {
    forall j | |t0| <= j < |t| :: t[j].look.None? || t[j].look.value in Looks(t0)
  }

  lemma LooksFromStep(t0: seq<Transition>, t: seq<Transition>, tr: Transition)
    requires LooksFrom(t0, t) && |t| >= |t0| && (tr.look.None? || tr.look.value in Looks(t0))
    ensures LooksFrom(t0, t + [tr])
  {
    forall j | |t0| <= j < |t| + 1 ensures (t + [tr])[j].look.None? || (t + [tr])[j].look.value in Looks(t0) {
      if j < |t| {
        assert (t + [tr])[j] == t[j];
      }
    }
  }

  /** Records appended without new assertions leave the set of assertions as it was. */
  lemma LooksFromKept(t0: seq<Transition>, t: seq<Transition>)
    requires |t| >= |t0| && t[..|t0|] == t0 && LooksFrom(t0, t)
    ensures Looks(t) == Looks(t0)
  {
    forall l | l in Looks(t0) ensures l in Looks(t) {
      var i :| 0 <= i < |t0| && t0[i].look.Some? && t0[i].look.value == l;
      assert t[i] == t[..|t0|][i];
    }
    forall l | l in Looks(t) ensures l in Looks(t0) {
      var i :| 0 <= i < |t| && t[i].look.Some? && t[i].look.value == l;
      if i < |t0| {
        assert t[i] == t[..|t0|][i];
      }
    }
  }

  /** Re-sourcing records does not change the assertions they carry. */
  lemma LooksRedirected(t: seq<Transition>, ids: seq<nat>, x: nat)
    ensures Looks(Redirected(t, ids, x)) == Looks(t)
  {
    var r := Redirected(t, ids, x);
    forall l | l in Looks(t) ensures l in Looks(r) {
      var i :| 0 <= i < |t| && t[i].look.Some? && t[i].look.value == l;
      assert r[i].look == t[i].look;
    }
    forall l | l in Looks(r) ensures l in Looks(t) {
      var i :| 0 <= i < |r| && r[i].look.Some? && r[i].look.value == l;
      assert r[i].look == t[i].look;
    }
  }

  /** One more record: its assertion, if any, joins the set. */
  lemma LooksAppend(t: seq<Transition>, tr: Transition)
    ensures Looks(t + [tr]) == Looks(t) + (if tr.look.Some? then {tr.look.value} else {})
  {
    var t' := t + [tr];
    forall l | l in Looks(t) ensures l in Looks(t') {
      var i :| 0 <= i < |t| && t[i].look.Some? && t[i].look.value == l;
      assert t'[i] == t[i];
    }
    forall l | l in Looks(t') ensures l in Looks(t) || (tr.look.Some? && l == tr.look.value) {
      var i :| 0 <= i < |t'| && t'[i].look.Some? && t'[i].look.value == l;
      if i < |t| {
        assert t'[i] == t[i];
      }
    }
    if tr.look.Some? {
      assert t'[|t|] == tr;
    }
  }

  /** The ids in `m` are states below `n0` mapped injectively to states in `[n0, n)`. */
  ghost predicate Fresh(n0: nat, n: nat, m: map<nat, nat>) {
    && (forall x | x in m :: x < n0 && n0 <= m[x] < n)
    && (forall x, y | x in m && y in m && x != y :: m[x] != m[y])
  }

  /** In the graph `(f, t)`, the copy `m[x]` of state `x` of the graph
      `(f0, t0)` has, in order, one move per move of `x`, with the same label
      and assertion, leading to the copy of its target. */
  ghost predicate CopiedRow(f0: seq<seq<nat>>, t0: seq<Transition>, f: seq<seq<nat>>, t: seq<Transition>, m: map<nat, nat>, x: nat) {
    && x < |f0| && x in m && m[x] < |f|
    && |f[m[x]]| == |f0[x]|
    && forall i | 0 <= i < |f0[x]| ::
      && f0[x][i] < |t0| && f[m[x]][i] < |t| && t0[f0[x][i]].to in m
      && t[f[m[x]][i]] == Transition(t0[f0[x][i]].at, t0[f0[x][i]].look, m[x], m[t0[f0[x][i]].to])
  }

  /** A copied row stays copied when its list is untouched, records are only
      appended and the copy map only grows. */
  lemma CopiedRowKept(f0: seq<seq<nat>>, t0: seq<Transition>, f: seq<seq<nat>>, t: seq<Transition>, m: map<nat, nat>,
                      f': seq<seq<nat>>, t': seq<Transition>, m': map<nat, nat>, x: nat)
    requires CopiedRow(f0, t0, f, t, m, x)
    requires Extends(m, m') && |f'| >= |f| && f'[m[x]] == f[m[x]] && |t'| >= |t| && t'[..|t|] == t
    ensures CopiedRow(f0, t0, f', t', m', x)
  {
    forall i | 0 <= i < |f0[x]| ensures t'[f'[m'[x]][i]] == t[f[m[x]][i]] {
      assert t'[..|t|][f[m[x]][i]] == t[f[m[x]][i]];
    }
  }

  /** The first `i` moves of `x` are copied onto `us`. */
  ghost predicate PartialRow(f0: seq<seq<nat>>, t0: seq<Transition>, f: seq<seq<nat>>, t: seq<Transition>, m: map<nat, nat>,
                             x: nat, us: nat, i: nat) {
    && x < |f0| && i <= |f0[x]| && us < |f| && |f[us]| == i
    && forall j | 0 <= j < i ::
      && f0[x][j] < |t0| && f[us][j] < |t| && t0[f0[x][j]].to in m
      && t[f[us][j]] == Transition(t0[f0[x][j]].at, t0[f0[x][j]].look, us, m[t0[f0[x][j]].to])
  }

  /** The graph `(f0, t0)` of `n0` states is closed: lists name records and
      records lead to states. */
  ghost predicate Closed(f0: seq<seq<nat>>, t0: seq<Transition>, n0: nat) {
    && |f0| == n0
    && (forall x, i | 0 <= x < |f0| && 0 <= i < |f0[x]| :: f0[x][i] < |t0|)
    && (forall j | 0 <= j < |t0| :: t0[j].to < n0)
  }

  /** Copying move `i` of `x` onto `us` extends the partial copy. */
  lemma PartialRowStep(f0: seq<seq<nat>>, t0: seq<Transition>, f: seq<seq<nat>>, t: seq<Transition>, m: map<nat, nat>,
                       x: nat, us: nat, i: nat, f': seq<seq<nat>>, m': map<nat, nat>)
    requires PartialRow(f0, t0, f, t, m, x, us, i) && i < |f0[x]| && |t| >= |t0| && t[..|t0|] == t0
    requires Closed(f0, t0, |f0|) && Extends(m, m') && t0[f0[x][i]].to in m'
    requires |f'| == |f| && f' == f[us := f[us] + [|t|]]
    ensures var tr := t0[f0[x][i]];
      PartialRow(f0, t0, f', t + [Transition(tr.at, tr.look, us, m'[tr.to])], m', x, us, i + 1)
  {
    var tr := t0[f0[x][i]];
    var t' := t + [Transition(tr.at, tr.look, us, m'[tr.to])];
    forall j | 0 <= j < i ensures t'[f'[us][j]] == t[f[us][j]] {}
    assert t'[f'[us][i]] == Transition(tr.at, tr.look, us, m'[tr.to]);
  }

  /** The state of `nfaClone`'s worklist: copies are fresh, queued states have
      empty copies and are queued once, and every other seen state outside
      `busy` is fully copied. */
  ghost predicate CloneState(f0: seq<seq<nat>>, t0: seq<Transition>, n0: nat, f: seq<seq<nat>>, t: seq<Transition>,
                             m: map<nat, nat>, frontier: seq<nat>, busy: set<nat>) {
    && Fresh(n0, |f|, m)
    && (forall k | 0 <= k < |frontier| :: frontier[k] in m && f[m[frontier[k]]] == [] && frontier[k] !in busy)
    && (forall k1, k2 | 0 <= k1 < k2 < |frontier| :: frontier[k1] != frontier[k2])
    && (forall x | x in m && x !in frontier && x !in busy :: CopiedRow(f0, t0, f, t, m, x))
  }

  lemma ClonePop(f0: seq<seq<nat>>, t0: seq<Transition>, n0: nat, f: seq<seq<nat>>, t: seq<Transition>,
                 m: map<nat, nat>, frontier: seq<nat>)
    requires CloneState(f0, t0, n0, f, t, m, frontier, {}) && |frontier| > 0
    ensures var x := frontier[|frontier| - 1];
      && x in m && f[m[x]] == [] && x !in frontier[..|frontier| - 1]
      && CloneState(f0, t0, n0, f, t, m, frontier[..|frontier| - 1], {x})
  {
    var x, rest := frontier[|frontier| - 1], frontier[..|frontier| - 1];
    assert frontier == rest + [x];
    assert forall k | 0 <= k < |rest| :: rest[k] == frontier[k] && frontier[k] != frontier[|frontier| - 1];
  }

  /** A new key pushed by `getState` keeps the worklist state. */
  lemma CloneGetNew(f0: seq<seq<nat>>, t0: seq<Transition>, n0: nat, f: seq<seq<nat>>, t: seq<Transition>,
                    m: map<nat, nat>, frontier: seq<nat>, busy: set<nat>, p: nat)
    requires CloneState(f0, t0, n0, f, t, m, frontier, busy) && p !in m && p < n0 && |f| >= n0 && busy <= m.Keys
    ensures CloneState(f0, t0, n0, f + [[]], t, m[p := |f|], frontier + [p], busy)
  {
    var f', m', fr' := f + [[]], m[p := |f|], frontier + [p];
    forall x | x in m' && x !in fr' && x !in busy ensures CopiedRow(f0, t0, f', t, m', x) {
      assert x in m && x !in frontier;
      CopiedRowKept(f0, t0, f, t, m, f', t, m', x);
    }
    forall k | 0 <= k < |fr'| ensures fr'[k] in m' && f'[m'[fr'[k]]] == [] && fr'[k] !in busy {
      if k < |frontier| {
        assert fr'[k] == frontier[k];
      }
    }
  }

  /** Once the busy state is copied, it is no longer busy. */
  lemma CloneRelease(f0: seq<seq<nat>>, t0: seq<Transition>, n0: nat, f: seq<seq<nat>>, t: seq<Transition>,
                     m: map<nat, nat>, frontier: seq<nat>, x: nat)
    requires CloneState(f0, t0, n0, f, t, m, frontier, {x}) && CopiedRow(f0, t0, f, t, m, x)
    ensures CloneState(f0, t0, n0, f, t, m, frontier, {})
  {
  }

  /** When the worklist is empty, every seen state is copied. */
  lemma CloneDone(f0: seq<seq<nat>>, t0: seq<Transition>, n0: nat, f: seq<seq<nat>>, t: seq<Transition>,
                  m: map<nat, nat>, frontier: seq<nat>, end: nat)
    requires CloneState(f0, t0, n0, f, t, m, frontier, {}) && (frontier == [] || frontier == [end])
    ensures forall x | x in m :: CopiedRow(f0, t0, f, t, m, x) || (x == end && f[m[x]] == [])
    ensures forall x | x in m && x != end :: CopiedRow(f0, t0, f, t, m, x)
  {
    forall x | x in m ensures CopiedRow(f0, t0, f, t, m, x) || (x == end && f[m[x]] == []) {
      if x in frontier {
        assert frontier[0] == x;
      }
    }
  }

  /** A move added to the copy of the busy state keeps the worklist state. */
  lemma CloneEdge(f0: seq<seq<nat>>, t0: seq<Transition>, n0: nat, f: seq<seq<nat>>, t: seq<Transition>,
                  m: map<nat, nat>, frontier: seq<nat>, x: nat, tr: Transition)
    requires CloneState(f0, t0, n0, f, t, m, frontier, {x}) && x in m && m[x] < |f|
    ensures CloneState(f0, t0, n0, f[m[x] := f[m[x]] + [|t|]], t + [tr], m, frontier, {x})
  {
    var f', t' := f[m[x] := f[m[x]] + [|t|]], t + [tr];
    forall y | y in m && y !in frontier && y != x ensures CopiedRow(f0, t0, f', t', m, y) {
      CopiedRowKept(f0, t0, f, t, m, f', t', m, y);
    }
  }

  /** A class fragment built over the graph `f0`, `b0`, `t0`: two new states
      `start` and `end` (the only new ones), the old lists untouched, the
      records only appended, and the moves of `start` all plain moves to `end`
      whose labels are `labels`. */
  ghost predicate ClassFrag(f0: seq<seq<nat>>, b0: seq<seq<nat>>, t0: seq<Transition>,
                            f: seq<seq<nat>>, b: seq<seq<nat>>, t: seq<Transition>, start: nat, end: nat,
                            labels: set<Option<char>>) {
    && start == |f0| && end == start + 1 && |f| == start + 2 && |b| == start + 2
    && f[..start] == f0 && b[..start] == b0 && |t| >= |t0| && t[..|t0|] == t0
    && (forall i | 0 <= i < |f[start]| :: f[start][i] < |t|)
    && (set i | 0 <= i < |f[start]| :: t[f[start][i]].at) == labels
    && (forall i | 0 <= i < |f[start]| :: var tr := t[f[start][i]]; tr.from == start && tr.to == end && tr.look.None?)
    && f[end] == [] && b[start] == []
    && LooksFrom(t0, t)
  }

  /** What `nfaClone`'s inner loop keeps while copying the first `i` moves of
      `state` onto `us`: the old nodes and records are untouched, the memo only
      grows, the clone state holds and no new assertion appears. */
  ghost predicate CopyLoop(f0: seq<seq<nat>>, t0: seq<Transition>, n0: nat, b0: seq<seq<nat>>,
                           f: seq<seq<nat>>, b: seq<seq<nat>>, t: seq<Transition>,
                           states0: map<nat, nat>, frontier0: seq<nat>, states: map<nat, nat>, frontier: seq<nat>,
                           state: nat, us: nat, i: nat) {
    && |f| >= n0 && |b| >= n0 && f[..n0] == f0 && b[..n0] == b0 && |t| >= |t0| && t[..|t0|] == t0
    && Extends(states0, states) && (states.Keys == states0.Keys ==> frontier == frontier0)
    && state in states && us == states[state] && state < |f0| && i <= |f0[state]|
    && PartialRow(f0, t0, f, t, states, state, us, i)
    && CloneState(f0, t0, n0, f, t, states, frontier, {state})
    && LooksFrom(t0, t)
  }

  class Arena {
    var forward: seq<seq<nat>>
    var back: seq<seq<nat>>
    var trans: seq<Transition>

    /** Every list entry names a record and every record names two states. */
    ghost predicate Valid()
      reads this
    {
      && |forward| == |back|
      && (forall x, i | 0 <= x < |forward| && 0 <= i < |forward[x]| :: forward[x][i] < |trans|)
      && (forall x, i | 0 <= x < |back| && 0 <= i < |back[x]| :: back[x][i] < |trans|)
      && (forall t | 0 <= t < |trans| :: trans[t].from < |forward| && trans[t].to < |forward|)
    }

    /** The number of states allocated so far: the next `id`. */
    function Size(): nat
      reads this
    {
      |forward|
    }

    /** `edges(x, rev)`: the transitions leaving `x` (or, when `rev`, entering
        it), each with its far end. */
    function Edges(x: nat, rev: bool): (r: seq<Arc>)
      reads this
      requires Valid() && x < |forward|
      ensures |r| == |Dir(forward, back, rev)[x]|
      ensures forall i | 0 <= i < |r| :: r[i].to < |forward|
    {
      ArcsOf(Dir(forward, back, rev)[x], trans, rev)
    }

    constructor ()
      ensures Valid() && forward == [] && back == [] && trans == []
    {
      forward, back, trans := [], [], [];
    }

    /** `empty`: a fresh state with no transitions. */
    method Empty() returns (id: nat)
      requires Valid()
      modifies this
      ensures Valid() && id == old(|forward|)
      ensures forward == old(forward) + [[]] && back == old(back) + [[]] && trans == old(trans)
    {
      id := |forward|;
      forward := forward + [[]];
      back := back + [[]];
    }

    /** `edge(x, y, at, assert, rev)` (`look` is `assert`): one new record from `x` to `y` (from `y`
        to `x` when `rev`), appended to its source's `forward` list and its
        target's `back` list; every other list is unchanged. */
    method Edge(x: nat, y: nat, at: Option<char>, look: Option<Look>, rev: bool)
      requires Valid() && x < |forward| && y < |forward|
      modifies this
      ensures Valid()
      ensures var src, dst := if rev then y else x, if rev then x else y;
        && trans == old(trans) + [Transition(at, look, src, dst)]
        && forward == old(forward)[src := old(forward)[src] + [|old(trans)|]]
        && back == old(back)[dst := old(back)[dst] + [|old(trans)|]]
      ensures Dir(forward, back, rev) == old(Dir(forward, back, rev))[x := old(Dir(forward, back, rev))[x] + [|old(trans)|]]
      ensures ArcOf(trans[|old(trans)|], rev) == Arc(at, look, y)
    {
      var src, dst := if rev then y else x, if rev then x else y;
      var t := |trans|;
      trans := trans + [Transition(at, look, src, dst)];
      forward := forward[src := forward[src] + [t]];
      back := back[dst := back[dst] + [t]];
    }

    /** `idNfa`: two fresh states joined by one epsilon move. */
    method IdNfa() returns (f: Frag)
      requires Valid()
      modifies this
      ensures Valid() && f == Frag(old(|forward|), old(|forward|) + 1)
      ensures trans == old(trans) + [Transition(None, None, f.start, f.end)]
      ensures forward == old(forward) + [[|old(trans)|], []]
      ensures back == old(back) + [[], [|old(trans)|]]
    {
      var start := Empty();
      var end := Empty();
      ghost var f0, b0, t0 := forward, back, trans;
      assert t0 == old(trans) && f0[start] == [] && b0[end] == [];
      Edge(start, end, None, None, false);
      assert f0[start] + [|t0|] == [|t0|] && b0[end] + [|t0|] == [|t0|];
      f := Frag(start, end);
    }

    /** `nfaClass`: two fresh states and one move from `start` to `end` for
        each character of the alphabet the class accepts. */
    method NfaClass(t: CharTest, cs: set<char>) returns (f: Frag)
      requires Valid()
      modifies this
      ensures Valid() && f == Frag(old(|forward|), old(|forward|) + 1)
      ensures ClassFrag(old(forward), old(back), old(trans), forward, back, trans, f.start, f.end,
                        set c | c in cs && t.matches(c) :: Some(c))
    {
      ghost var f0, b0, t0 := forward, back, trans;
      var start := Empty();
      var end := Empty();
      f := Frag(start, end);
      var rest := cs;
      assert (set c | c in cs - rest && t.matches(c) :: Some(c)) == {};
      assert forward[start] == [];
      while rest != {}
        invariant Valid() && rest <= cs
        invariant ClassFrag(f0, b0, t0, forward, back, trans, start, end, set c | c in cs - rest && t.matches(c) :: Some(c))
        decreases |rest|
      {
        InhabitedChars(rest);
        var c :| c in rest;
        ghost var labels := set c' | c' in cs - rest && t.matches(c') :: Some(c');
        if t.matches(c) {
          ClassEdge(f0, b0, t0, start, end, labels, c);
          assert (set c' | c' in cs - (rest - {c}) && t.matches(c') :: Some(c')) == labels + {Some(c)};
        } else {
          assert (set c' | c' in cs - (rest - {c}) && t.matches(c') :: Some(c')) == labels;
        }
        rest := rest - {c};
      }
    }

    /** One accepted character of `nfaClass`: a move on `c` from `start` to `end`. */
    method ClassEdge(ghost f0: seq<seq<nat>>, ghost b0: seq<seq<nat>>, ghost t0: seq<Transition>, start: nat, end: nat,
                     ghost labels: set<Option<char>>, c: char)
      requires Valid() && ClassFrag(f0, b0, t0, forward, back, trans, start, end, labels)
      modifies this
      ensures Valid() && ClassFrag(f0, b0, t0, forward, back, trans, start, end, labels + {Some(c)})
    {
      ghost var before, trans0 := forward[start], trans;
      Edge(start, end, Some(c), None, false);
      LooksFromStep(t0, trans0, Transition(Some(c), None, start, end));
      PrefixAfterAppend(trans0, [Transition(Some(c), None, start, end)], |t0|);
      assert forward[start] == before + [|trans0|];
      forall i | 0 <= i < |before| ensures trans[forward[start][i]] == trans0[before[i]] {
        assert trans[..|trans0|] == trans0;
      }
      assert (set i | 0 <= i < |forward[start]| :: trans[forward[start][i]].at) == labels + {Some(c)} by {
        assert trans[forward[start][|before|]].at == Some(c);
      }
    }

    /** `nfaAppend(nfa, other)`: the moves leaving `other.start` now leave
        `nfa.end` instead, and the fragment ends at `other.end`. */
    method Append(nfa: Frag, other: Frag) returns (r: Frag)
      requires Valid() && nfa.end < |forward| && other.start < |forward| && other.end < |forward|
      modifies this
      ensures Valid() && r == Frag(nfa.start, other.end)
      ensures forward == old(forward)[nfa.end := old(forward)[other.start]] && back == old(back)
      ensures trans == Redirected(old(trans), old(forward)[other.start], nfa.end)
    {
      var moved := forward[other.start];
      var i := 0;
      while i < |moved|
        invariant 0 <= i <= |moved| && forward == old(forward) && back == old(back)
        invariant trans == Redirected(old(trans), moved[..i], nfa.end)
      {
        assert moved[..i + 1] == moved[..i] + [moved[i]];
        trans := trans[moved[i] := trans[moved[i]].(from := nfa.end)];
        i := i + 1;
      }
      assert moved[..i] == moved;
      forward := forward[nfa.end := moved];
      r := Frag(nfa.start, other.end);
    }

    /** `getState` with a fresh state as the value for a new key (`idGet`,
        `biGet`): a known key returns its state and changes nothing; a new key
        is pushed on the frontier once and gets a new state. */
    method GetNode<P(==)>(states: map<P, nat>, frontier: seq<P>, p: P) returns (v: nat, states': map<P, nat>, frontier': seq<P>)
      requires Valid()
      modifies this
      ensures Valid() && p in states' && states'[p] == v
      ensures p in states ==> && v == states[p] && states' == states && frontier' == frontier
                              && forward == old(forward) && back == old(back) && trans == old(trans)
      ensures p !in states ==> && v == old(|forward|) && states' == states[p := v] && frontier' == frontier + [p]
                               && forward == old(forward) + [[]] && back == old(back) + [[]] && trans == old(trans)
    {
      if p in states {
        v, states', frontier' := states[p], states, frontier;
      } else {
        frontier' := frontier + [p];
        v := Empty();
        states' := states[p := v];
      }
    }

    /** The body of `nfaClone`'s worklist loop: copy each move of `state`
        onto its copy `us`, fetching the copy of each target. */
    method CopyRow(ghost f0: seq<seq<nat>>, ghost t0: seq<Transition>, ghost n0: nat, state: nat, us: nat,
                   states: map<nat, nat>, frontier: seq<nat>) returns (states': map<nat, nat>, frontier': seq<nat>)
      requires Valid() && |forward| >= n0 && Closed(f0, t0, n0) && state < n0
      requires CopyLoop(f0, t0, n0, back[..n0], forward, back, trans, states, frontier, states, frontier, state, us, 0)
      requires forward[us] == []
      modifies this
      ensures Valid()
      ensures CopyLoop(f0, t0, n0, old(back[..n0]), forward, back, trans, states, frontier, states', frontier', state, us, |f0[state]|)
      ensures CopiedRow(f0, t0, forward, trans, states', state)
    {
      ghost var b0 := back[..n0];
      states', frontier' := states, frontier;
      var row := forward[state];
      assert row == f0[state] by { assert forward[..n0][state] == forward[state]; }
      var i := 0;
      while i < |row|
        invariant Valid() && 0 <= i <= |row|
        invariant CopyLoop(f0, t0, n0, b0, forward, back, trans, states, frontier, states', frontier', state, us, i)
      {
        states', frontier' := CopyMove(f0, t0, n0, b0, state, us, states, frontier, states', frontier', i);
        i := i + 1;
      }
    }

    /** One move of `nfaClone`'s inner loop: the `i`th move of `state` copied onto `us`. */
    method CopyMove(ghost f0: seq<seq<nat>>, ghost t0: seq<Transition>, ghost n0: nat, ghost b0: seq<seq<nat>>,
                    state: nat, us: nat, ghost states0: map<nat, nat>, ghost frontier0: seq<nat>,
                    states: map<nat, nat>, frontier: seq<nat>, i: nat) returns (states': map<nat, nat>, frontier': seq<nat>)
      requires Valid() && Closed(f0, t0, n0) && state < n0 && i < |f0[state]|
      requires CopyLoop(f0, t0, n0, b0, forward, back, trans, states0, frontier0, states, frontier, state, us, i)
      modifies this
      ensures Valid()
      ensures CopyLoop(f0, t0, n0, b0, forward, back, trans, states0, frontier0, states', frontier', state, us, i + 1)
    {
      assert forward[state] == f0[state] by { assert forward[..n0][state] == forward[state]; }
      var tr := trans[forward[state][i]];
      assert tr == t0[f0[state][i]] by { assert trans[..|t0|][forward[state][i]] == trans[forward[state][i]]; }
      var to;
      ghost var fB, tB, bB := forward, trans, back;
      to, states', frontier' := GetNode(states, frontier, tr.to);
      if tr.to !in states {
        CloneGetNew(f0, t0, n0, fB, tB, states, frontier, {state}, tr.to);
        PrefixAfterAppend(fB, [[]], n0);
        PrefixAfterAppend(bB, [[]], n0);
      }
      ghost var fC, tC, bC := forward, trans, back;
      Edge(us, to, tr.at, tr.look, false);
      PrefixAfterUpdate(fC, us, fC[us] + [|tC|], n0);
      PrefixAfterUpdate(bC, to, bC[to] + [|tC|], n0);
      PrefixAfterAppend(tC, [Transition(tr.at, tr.look, us, to)], |t0|);
      assert tr.look.Some? ==> tr.look.value in Looks(t0) by {
        assert f0[state][i] < |t0|;
      }
      LooksFromStep(t0, tC, Transition(tr.at, tr.look, us, to));
      PartialRowStep(f0, t0, fC, tC, states, state, us, i, forward, states');
      CloneEdge(f0, t0, n0, fC, tC, states', frontier', state, Transition(tr.at, tr.look, us, to));
    }

    /** `nfaClone`'s worklist loop: pop a state and copy its moves until the
        frontier is empty. */
    method DrainClone(ghost f0: seq<seq<nat>>, ghost t0: seq<Transition>, ghost n0: nat,
                      states0: map<nat, nat>, frontier0: seq<nat>) returns (states: map<nat, nat>)
      requires Valid() && |forward| >= n0 && forward[..n0] == f0 && |trans| >= |t0| && trans[..|t0|] == t0
      requires Closed(f0, t0, n0)
      requires CloneState(f0, t0, n0, forward, trans, states0, frontier0, {})
      modifies this
      ensures Valid() && |forward| >= n0 && forward[..n0] == f0 && back[..n0] == old(back[..n0])
      ensures |trans| >= |t0| && trans[..|t0|] == t0
      requires LooksFrom(t0, trans)
      ensures Extends(states0, states) && CloneState(f0, t0, n0, forward, trans, states, [], {})
      ensures LooksFrom(t0, trans)
    {
      ghost var universe := IdsBelow(n0);
      var frontier := frontier0;
      states := states0;
      while |frontier| > 0
        invariant Valid() && |forward| >= n0 && forward[..n0] == f0 && back[..n0] == old(back[..n0])
        invariant |trans| >= |t0| && trans[..|t0|] == t0
        invariant Extends(states0, states)
        invariant CloneState(f0, t0, n0, forward, trans, states, frontier, {})
        invariant LooksFrom(t0, trans)
        decreases |universe - states.Keys|, |frontier|
      {
        ClonePop(f0, t0, n0, forward, trans, states, frontier);
        var state := frontier[|frontier| - 1];
        frontier := frontier[..|frontier| - 1];
        ghost var states1, frontier1 := states, frontier;
        var us;
        us, states, frontier := GetNode(states, frontier, state);
        ghost var states2, frontier2 := states, frontier;
        states, frontier := CopyRow(f0, t0, n0, state, us, states, frontier);
        ExtendsTrans(states1, states2, states);
        CloneRelease(f0, t0, n0, forward, trans, states, frontier, state);
        SubsetMeasure(universe, states1.Keys, states.Keys);
      }
    }

    /** `nfaClone`: a fresh copy of the part of the graph reachable from
        `nfa.start`, found by a worklist; `m` maps each reached state to its copy. */
    method Clone(nfa: Frag) returns (r: Frag, ghost m: map<nat, nat>)
      requires Valid() && nfa.start < |forward| && nfa.end < |forward|
      modifies this
      ensures Valid()
      ensures |forward| >= old(|forward|) && forward[..old(|forward|)] == old(forward) && back[..old(|forward|)] == old(back)
      ensures |trans| >= old(|trans|) && trans[..old(|trans|)] == old(trans)
      ensures Fresh(old(|forward|), |forward|, m)
      ensures nfa.start in m && nfa.end in m && r == Frag(m[nfa.start], m[nfa.end])
      ensures CopiedRow(old(forward), old(trans), forward, trans, m, nfa.start)
      ensures forall x | x in m :: CopiedRow(old(forward), old(trans), forward, trans, m, x) || (x == nfa.end && forward[m[x]] == [])
      ensures LooksFrom(old(trans), trans)
    {
      ghost var n0, f0, b0, t0 := |forward|, forward, back, trans;
      assert Closed(f0, t0, n0);
      var states: map<nat, nat>, frontier: seq<nat> := map[], [];
      var start;
      start, states, frontier := GetNode(states, frontier, nfa.start);
      PrefixAfterAppend(f0, [[]], n0);
      PrefixAfterAppend(b0, [[]], n0);
      states := DrainClone(f0, t0, n0, states, frontier);
      assert states[nfa.start] == start;
      frontier := [];
      var end;
      ghost var fE, tE, bE, sE := forward, trans, back, states;
      end, states, frontier := GetNode(states, frontier, nfa.end);
      if nfa.end !in sE {
        CloneGetNew(f0, t0, n0, fE, tE, sE, [], {}, nfa.end);
        PrefixAfterAppend(fE, [[]], n0);
        PrefixAfterAppend(bE, [[]], n0);
        assert states[nfa.start] == start;
      }
      CloneDone(f0, t0, n0, forward, trans, states, frontier, nfa.end);
      assert CopiedRow(f0, t0, forward, trans, states, nfa.start) by {
        if nfa.start == nfa.end {
          assert frontier == [];
        }
      }
      r, m := Frag(start, end), states;
    }
  }
}
