/** The edit engine of `diff.js`: the shortest literal string between every
    pair of DFA states (`allPairsShortestPath`), and the dynamic program
    `diff` over the input that keeps, deletes or inserts characters so the
    edited string is accepted, at least cost.

    Costs are integers scaled by ten: a deletion costs 10, an insertion of
    `w` costs `10 * |w| + 1` (the source's `1` and `w.length + 0.1`). */
module Diff {
  import opened Base
  import Dfa
  import RegexAst
  import Nfa
  import Compiler

  type Edges = map<int, map<char, int>>

  /** One move of an edit script. */
  datatype Step = Keep | Delete | Insert(what: string)

  /** A map entry of the dynamic program: the steps so far and their cost. */
  datatype Stost = Stost(steps: seq<Step>, cost: nat)

  /** How many input characters `s` reads. */
  function Consumed(s: seq<Step>): nat
    decreases |s|
  {
    if |s| == 0 then 0 else Consumed(s[..|s| - 1]) + (if s[|s| - 1].Insert? then 0 else 1)
  }

  /** The replay loop of the UI: `keep` copies the next input character,
      `delete` skips it, `insert` writes its string. */
  function Output(input: string, s: seq<Step>): string
    requires Consumed(s) <= |input|
    decreases |s|
  {
    if |s| == 0 then []
    else
      var p := s[..|s| - 1];
      match s[|s| - 1]
      case Keep => Output(input, p) + [input[Consumed(p)]]
      case Delete => Output(input, p)
      case Insert(w) => Output(input, p) + w
  }

  /** The cost of a script, scaled by ten. */
  function Cost(s: seq<Step>): nat
    decreases |s|
  {
    if |s| == 0 then 0
    else
      Cost(s[..|s| - 1]) + match s[|s| - 1]
                           case Keep => 0
                           case Delete => 10
                           case Insert(w) => 10 * |w| + 1
  }

  lemma Appended(input: string, s: seq<Step>, x: Step)
    requires Consumed(s) + (if x.Insert? then 0 else 1) <= |input|
    ensures Consumed(s + [x]) == Consumed(s) + (if x.Insert? then 0 else 1)
    ensures Output(input, s + [x]) == match x
                                       case Keep => Output(input, s) + [input[Consumed(s)]]
                                       case Delete => Output(input, s)
                                       case Insert(w) => Output(input, s) + w
    ensures Cost(s + [x]) == Cost(s) + match x
                                       case Keep => 0
                                       case Delete => 10
                                       case Insert(w) => 10 * |w| + 1
  {
    assert (s + [x])[..|s|] == s;
  }

  // ---------------------------------------------------------------------
  // allPairsShortestPath

  type Paths = map<int, map<int, string>>

  /** The states of `w`'s walk from `b` strictly between its ends all lie in `via`. */
  ghost predicate ViaIn(edges: Edges, b: int, w: seq<char>, via: set<int>) {
    forall j | 0 < j < |w| :: Dfa.Walk(edges, b, w[..j]).Some? && Dfa.Walk(edges, b, w[..j]).value in via
  }

  /** Every stored string spells a walk to its target, and every state's
      entry for itself is the empty string. */
  ghost predicate PathsOk(edges: Edges, p: Paths) {
    && p.Keys == edges.Keys
    && (forall k | k in p :: k in p[k] && p[k][k] == "")
    && (forall b, c | b in p && c in p[b] :: Dfa.Walk(edges, b, p[b][c]) == Some(c))
  }

  /** The entry from `b` to `c` is no longer than any walk between them
      through `via`. */
  ghost predicate Bound(edges: Edges, p: Paths, b: int, c: int, via: set<int>)
    requires b in p
  {
    forall w | Dfa.Walk(edges, b, w) == Some(c) && ViaIn(edges, b, w, via) :: c in p[b] && |p[b][c]| <= |w|
  }

  /** Every entry of `p0` is still present in `p` and no longer. */
  ghost predicate Shrinks(p0: Paths, p: Paths) {
    && p0.Keys <= p.Keys
    && forall b, c | b in p0 && c in p0[b] :: c in p[b] && |p[b][c]| <= |p0[b][c]|
  }

  /** `ks` lists the keys of `s` once each: the iteration order of a JS `Map`. */
  ghost predicate Lists(ks: seq<int>, s: set<int>) {
    && (forall k | k in s :: k in ks)
    && (forall j | 0 <= j < |ks| :: ks[j] in s)
    && (forall i, j | 0 <= i < j < |ks| :: ks[i] != ks[j])
  }

  /** The keys of a map in the order it yields them, left open. */
  method KeyOrder(s: set<int>) returns (ks: seq<int>)
    ensures Lists(ks, s)
  {
    ks := [];
    var todo := s;
    while todo != {}
      invariant todo <= s && Lists(ks, s - todo)
      decreases todo
    {
      Inhabited(todo);
      var k :| k in todo;
      ks := ks + [k];
      todo := todo - {k};
    }
  }

  ghost predicate DirectRowOk(edges: Edges, k: int, row: map<int, string>)
    requires k in edges
  {
    && row.Keys == edges[k].Values + {k} && row[k] == ""
    && forall t | t in row && t != k :: |row[t]| == 1 && row[t][0] in edges[k] && edges[k][row[t][0]] == t
  }

  /** The first table row of `k`: each target reached in one move gets the
      character of a move to it, and `k` itself gets `""`. */
  method DirectRow(edges: Edges, k: int) returns (row: map<int, string>)
    requires k in edges
    ensures DirectRowOk(edges, k, row)
  {
    var v := edges[k];
    var todo := v.Keys;
    row := map[];
    while todo != {}
      invariant todo <= v.Keys
      invariant row.Keys == set c | c in v.Keys - todo :: v[c]
      invariant forall t | t in row :: |row[t]| == 1 && row[t][0] in v && v[row[t][0]] == t
      decreases todo
    {
      var c :| c in todo;
      row := row[v[c] := [c]];
      todo := todo - {c};
    }
    assert row.Keys == v.Values by {
      forall t | t in v.Values ensures t in row {
        var c :| c in v && v[c] == t;
      }
    }
    row := row[k := ""];
  }

  /** One relaxation of the triple loop: the entry from `b` to `c` becomes
      the one through `a` when both halves exist and it is strictly shorter. */
  function Relax(p: Paths, a: int, b: int, c: int): (r: Paths)
    requires b in p
    ensures r.Keys == p.Keys && (forall k | k in p && k != b :: r[k] == p[k])
    ensures r[b].Keys == p[b].Keys + (if c in r[b] then {c} else {})
    ensures forall t | t in p[b] && t != c :: r[b][t] == p[b][t]
    ensures c in r[b] && (c !in p[b] || r[b][c] != p[b][c]) ==>
              a in p[b] && a in p && c in p[a] && r[b][c] == p[b][a] + p[a][c]
              && (c in p[b] ==> |r[b][c]| < |p[b][c]|)
    ensures a in p[b] && a in p && c in p[a] ==> c in r[b] && |r[b][c]| <= |p[b][a]| + |p[a][c]|
    ensures Shrinks(p, r)
  {
    if a in p[b] && a in p && c in p[a] && (c !in p[b] || |p[b][c]| > |p[b][a] + p[a][c]|) then
      p[b := p[b][c := p[b][a] + p[a][c]]]
    else
      p
  }

  lemma RelaxOk(edges: Edges, p: Paths, a: int, b: int, c: int)
    requires PathsOk(edges, p) && b in p
    ensures PathsOk(edges, Relax(p, a, b, c))
  {
    var r := Relax(p, a, b, c);
    forall x, y | x in r && y in r[x] ensures Dfa.Walk(edges, x, r[x][y]) == Some(y) {
      if x != b {
        assert r[x] == p[x];
      } else if y != c {
        assert r[b][y] == p[b][y];
      } else if c !in p[b] || r[b][c] != p[b][c] {
        assert Dfa.Walk(edges, b, p[b][a]) == Some(a) && Dfa.Walk(edges, a, p[a][c]) == Some(c);
        Dfa.WalkConcat(edges, b, p[b][a], p[a][c]);
      }
    }
  }

  /** A walk whose intermediate states lie in `via + {a}` and include `a`
      splits into a walk to the first `a` and one from the last `a`, both
      through `via` only. */
  lemma SplitAt(edges: Edges, b: int, w: seq<char>, c: int, via: set<int>, a: int) returns (j1: nat, j2: nat)
    requires Dfa.Walk(edges, b, w) == Some(c) && ViaIn(edges, b, w, via + {a}) && !ViaIn(edges, b, w, via)
    ensures 0 < j1 <= j2 < |w|
    ensures Dfa.Walk(edges, b, w[..j1]) == Some(a) && ViaIn(edges, b, w[..j1], via)
    ensures Dfa.Walk(edges, a, w[j2..]) == Some(c) && ViaIn(edges, a, w[j2..], via)
  {
    var j :| 0 < j < |w| && Dfa.Walk(edges, b, w[..j]).value !in via;
    j1 := 1;
    while Dfa.Walk(edges, b, w[..j1]) != Some(a)
      invariant 0 < j1 <= j
      invariant forall k | 0 < k < j1 :: Dfa.Walk(edges, b, w[..k]).value in via
      decreases j - j1
    {
      j1 := j1 + 1;
    }
    j2 := |w| - 1;
    while Dfa.Walk(edges, b, w[..j2]) != Some(a)
      invariant j <= j2 < |w|
      invariant forall k | j2 < k < |w| :: Dfa.Walk(edges, b, w[..k]).value in via
      decreases j2
    {
      j2 := j2 - 1;
    }
    forall k | 0 < k < j1 ensures Dfa.Walk(edges, b, w[..j1][..k]) == Dfa.Walk(edges, b, w[..k]) {
      assert w[..j1][..k] == w[..k];
    }
    assert w == w[..j2] + w[j2..];
    Dfa.WalkConcat(edges, b, w[..j2], w[j2..]);
    forall k | 0 < k < |w| - j2
      ensures Dfa.Walk(edges, a, w[j2..][..k]).Some? && Dfa.Walk(edges, a, w[j2..][..k]).value in via
    {
      assert w[..j2 + k] == w[..j2] + w[j2..][..k];
      Dfa.WalkConcat(edges, b, w[..j2], w[j2..][..k]);
    }
  }

  /** The entry from `b` to `c` after relaxing through `a` is no longer than
      any walk through `via + {a}`, given the bounds through `via` of the
      three entries involved. */
  lemma RelaxBound(edges: Edges, p: Paths, a: int, b: int, c: int, via: set<int>)
    requires b in p && a in p
    requires Bound(edges, p, b, c, via) && Bound(edges, p, b, a, via) && Bound(edges, p, a, c, via)
    ensures Bound(edges, Relax(p, a, b, c), b, c, via + {a})
  {
    var r := Relax(p, a, b, c);
    forall w | Dfa.Walk(edges, b, w) == Some(c) && ViaIn(edges, b, w, via + {a}) ensures c in r[b] && |r[b][c]| <= |w| {
      if !ViaIn(edges, b, w, via) {
        var j1, j2 := SplitAt(edges, b, w, c, via, a);
        assert |p[b][a]| <= |w[..j1]| && |p[a][c]| <= |w[j2..]|;
      }
    }
  }

  lemma BoundShrinks(edges: Edges, p: Paths, r: Paths, b: int, c: int, via: set<int>)
    requires b in p && Shrinks(p, r) && Bound(edges, p, b, c, via)
    ensures Bound(edges, r, b, c, via)
  {
  }

  /** The state of the triple loop in the round for `a`: every pair of keys
      has its bound through `via`, and the pairs already relaxed in this
      round (rows before `bi`, and row `bi` before column `ci`) through
      `via + {a}`. */
  ghost predicate RoundOk(edges: Edges, ks: seq<int>, p: Paths, via: set<int>, a: int, bi: int, ci: int) {
    && AllBound(edges, ks, p, via)
    && (forall x, y | 0 <= x < |ks| && 0 <= y < |ks| && (x < bi || (x == bi && y < ci)) :: Bound(edges, p, ks[x], ks[y], via + {a}))
  }

  /** Every pair of keys has its entry bounded by the walks through `via`. */
  ghost predicate AllBound(edges: Edges, ks: seq<int>, p: Paths, via: set<int>) {
    && Lists(ks, edges.Keys) && PathsOk(edges, p)
    && (forall x, y | 0 <= x < |ks| && 0 <= y < |ks| :: Bound(edges, p, ks[x], ks[y], via))
  }

  lemma RelaxStep(edges: Edges, ks: seq<int>, p: Paths, via: set<int>, ai: nat, bi: nat, ci: nat)
    requires ai < |ks| && bi < |ks| && ci < |ks| && RoundOk(edges, ks, p, via, ks[ai], bi, ci)
    ensures RoundOk(edges, ks, Relax(p, ks[ai], ks[bi], ks[ci]), via, ks[ai], bi, ci + 1)
  {
    var a, b, c := ks[ai], ks[bi], ks[ci];
    var r := Relax(p, a, b, c);
    RelaxOk(edges, p, a, b, c);
    forall x, y | 0 <= x < |ks| && 0 <= y < |ks|
      ensures Bound(edges, r, ks[x], ks[y], via)
      ensures (x < bi || (x == bi && y < ci + 1)) ==> Bound(edges, r, ks[x], ks[y], via + {a})
    {
      BoundShrinks(edges, p, r, ks[x], ks[y], via);
      if x == bi && y == ci {
        RelaxBound(edges, p, a, b, c, via);
      } else if x < bi || (x == bi && y < ci) {
        BoundShrinks(edges, p, r, ks[x], ks[y], via + {a});
      }
    }
  }

  /** The innermost loop: row `b` relaxed through `a` against every column. */
  method RelaxRow(edges: Edges, ks: seq<int>, p: Paths, ghost via: set<int>, ai: nat, bi: nat) returns (r: Paths)
    requires ai < |ks| && bi < |ks| && RoundOk(edges, ks, p, via, ks[ai], bi, 0)
    ensures RoundOk(edges, ks, r, via, ks[ai], bi + 1, 0)
  {
    r := p;
    var ci := 0;
    while ci < |ks|
      invariant ci <= |ks| && RoundOk(edges, ks, r, via, ks[ai], bi, ci)
    {
      RelaxStep(edges, ks, r, via, ai, bi, ci);
      r := Relax(r, ks[ai], ks[bi], ks[ci]);
      ci := ci + 1;
    }
  }

  /** One round of the outer loop: every row relaxed through `ks[ai]`. */
  method RelaxRound(edges: Edges, ks: seq<int>, p: Paths, ghost via: set<int>, ai: nat) returns (r: Paths)
    requires ai < |ks| && AllBound(edges, ks, p, via)
    ensures AllBound(edges, ks, r, via + {ks[ai]})
  {
    r := p;
    var bi := 0;
    while bi < |ks|
      invariant bi <= |ks| && RoundOk(edges, ks, r, via, ks[ai], bi, 0)
    {
      r := RelaxRow(edges, ks, r, via, ai, bi);
      bi := bi + 1;
    }
    assert RoundOk(edges, ks, r, via, ks[ai], |ks|, 0);
  }

  /** The intermediate states of a walk have moves, so they are keys. */
  lemma ViaKeys(edges: Edges, b: int, w: seq<char>)
    requires Dfa.Walk(edges, b, w).Some?
    ensures ViaIn(edges, b, w, edges.Keys)
  {
    forall j | 0 < j < |w| ensures Dfa.Walk(edges, b, w[..j]).Some? && Dfa.Walk(edges, b, w[..j]).value in edges {
      assert w == w[..j] + w[j..];
      Dfa.WalkConcat(edges, b, w[..j], w[j..]);
    }
  }

  /** Before the triple loop only walks of at most one move are bounded. */
  lemma DirectBounds(edges: Edges, ks: seq<int>, p: Paths)
    requires Lists(ks, edges.Keys) && p.Keys == edges.Keys
    requires forall k | k in p :: DirectRowOk(edges, k, p[k])
    ensures AllBound(edges, ks, p, {})
  {
    forall b, c | b in p && c in p[b] ensures Dfa.Walk(edges, b, p[b][c]) == Some(c) {
      DirectWalk(edges, b, p[b], c);
    }
    forall x, y | 0 <= x < |ks| && 0 <= y < |ks| ensures Bound(edges, p, ks[x], ks[y], {}) {
      DirectBound(edges, ks[x], p[ks[x]], ks[y]);
    }
  }

  lemma DirectWalk(edges: Edges, b: int, row: map<int, string>, c: int)
    requires b in edges && DirectRowOk(edges, b, row) && c in row
    ensures Dfa.Walk(edges, b, row[c]) == Some(c)
  {
    if c != b {
      assert row[c] == [row[c][0]];
      assert Dfa.Walk(edges, c, row[c][1..]) == Some(c);
    }
  }

  lemma DirectBound(edges: Edges, b: int, row: map<int, string>, c: int)
    requires b in edges && DirectRowOk(edges, b, row)
    ensures forall w | Dfa.Walk(edges, b, w) == Some(c) && ViaIn(edges, b, w, {}) :: c in row && |row[c]| <= |w|
  {
    forall w | Dfa.Walk(edges, b, w) == Some(c) && ViaIn(edges, b, w, {}) ensures c in row && |row[c]| <= |w| {
      NoViaShort(edges, b, w);
      if |w| == 1 {
        assert w[1..] == [];
        assert w[0] in edges[b] && Dfa.Walk(edges, edges[b][w[0]], w[1..]) == Some(c);
        assert c in edges[b].Values;
      }
    }
  }

  /** A walk with no state allowed between its ends has at most one move. */
  lemma NoViaShort(edges: Edges, b: int, w: seq<char>)
    ensures ViaIn(edges, b, w, {}) ==> |w| <= 1
  {
    if |w| > 1 {
      assert !(Dfa.Walk(edges, b, w[..1]).Some? && Dfa.Walk(edges, b, w[..1]).value in {});
    }
  }

  /** The first loop of `allPairsShortestPath`: one direct row per state. */
  method DirectPaths(edges: Edges, ks: seq<int>) returns (paths: Paths)
    requires Lists(ks, edges.Keys)
    ensures paths.Keys == edges.Keys && forall k | k in paths :: DirectRowOk(edges, k, paths[k])
  {
    paths := map[];
    var i := 0;
    while i < |ks|
      invariant i <= |ks|
      invariant paths.Keys == set j | 0 <= j < i :: ks[j]
      invariant forall k | k in paths :: k in edges && DirectRowOk(edges, k, paths[k])
    {
      var row := DirectRow(edges, ks[i]);
      paths := paths[ks[i] := row];
      i := i + 1;
    }
    forall k | k in edges ensures k in paths {
      var j :| 0 <= j < |ks| && ks[j] == k;
    }
  }

  /** The triple loop: one round per state, in key order; afterwards every
      pair's entry is bounded by every walk between them. */
  method Rounds(edges: Edges, ks: seq<int>, p: Paths) returns (paths: Paths)
    requires AllBound(edges, ks, p, {})
    ensures AllBound(edges, ks, paths, edges.Keys)
  {
    paths := p;
    ghost var via: set<int> := {};
    var ai := 0;
    while ai < |ks|
      invariant ai <= |ks| && via <= edges.Keys && (forall j | 0 <= j < ai :: ks[j] in via)
      invariant AllBound(edges, ks, paths, via)
    {
      paths := RelaxRound(edges, ks, paths, via, ai);
      via := via + {ks[ai]};
      ai := ai + 1;
    }
    forall k | k in edges ensures k in via {
      var j :| 0 <= j < |ks| && ks[j] == k;
    }
    assert via == edges.Keys;
  }

  /** `Dfa.Walk` under a name of its own, so that the optimality below is
      applied only where a proof asks for it. */
  ghost function Reach(edges: Edges, b: int, w: string): Option<int> {
    Dfa.Walk(edges, b, w)
  }

  /** The stored paths are walks, and no walk between two states of the
      acceptor is shorter than the stored one. */
  ghost predicate Shortest(edges: Edges, p: Paths) {
    && PathsOk(edges, p)
    && forall b, w | b in edges && Reach(edges, b, w).Some? && Reach(edges, b, w).value in edges ::
         Reach(edges, b, w).value in p[b] && |p[b][Reach(edges, b, w).value]| <= |w|
  }

  /** `allPairsShortestPath`: for every pair of states, a shortest string
      leading from one to the other, under the edges of an acceptor. */
  method AllPairsShortestPath(edges: Edges) returns (paths: Paths)
    ensures Shortest(edges, paths)
  {
    var ks := KeyOrder(edges.Keys);
    paths := DirectPaths(edges, ks);
    DirectBounds(edges, ks, paths);
    paths := Rounds(edges, ks, paths);
    forall b, w | b in edges && Reach(edges, b, w).Some? && Reach(edges, b, w).value in edges
      ensures Reach(edges, b, w).value in paths[b] && |paths[b][Reach(edges, b, w).value]| <= |w|
    {
      var c := Reach(edges, b, w).value;
      ViaKeys(edges, b, w);
      var x :| 0 <= x < |ks| && ks[x] == b;
      var y :| 0 <= y < |ks| && ks[y] == c;
    }
  }

  // ---------------------------------------------------------------------
  // The dynamic program

  /** A JS `Map` from states to entries, with its iteration order. */
  datatype Table = Table(order: seq<int>, vals: map<int, Stost>)

  ghost predicate Ordered(m: Table) {
    Lists(m.order, m.vals.Keys)
  }

  /** `improve`: the entry for `state` becomes `st` when there was none or
      the old one costs at least as much. A new key goes to the end of the
      iteration order. */
  function Improve(m: Table, state: int, st: Stost): (r: Table)
    ensures Ordered(m) ==> Ordered(r)
    ensures r.vals.Keys == m.vals.Keys + {state}
    ensures r.vals[state] == st || (state in m.vals && r.vals[state] == m.vals[state])
    ensures state in m.vals ==> r.vals[state].cost == if m.vals[state].cost <= st.cost then m.vals[state].cost else st.cost
    ensures state !in m.vals || m.vals[state].cost == st.cost ==> r.vals[state] == st
    ensures forall q | q in m.vals && q != state :: r.vals[q] == m.vals[q]
    ensures r.order == if state in m.vals then m.order else m.order + [state]
  {
    if state !in m.vals then Table(m.order + [state], m.vals[state := st])
    else if m.vals[state].cost >= st.cost then Table(m.order, m.vals[state := st])
    else m
  }

  /** An entry for `q` after `i` input characters: its steps read exactly
      `i` characters, its cost is theirs, and replaying them yields a string
      that leads the acceptor from its initial state to `q`. */
  ghost predicate EntryOk(d: Dfa.Dfa, input: string, i: nat, q: int, st: Stost) {
    && i <= |input| && Consumed(st.steps) == i && st.cost == Cost(st.steps)
    && Dfa.Walk(d.edges, d.initial, Output(input, st.steps)) == Some(q)
  }

  /** Where replaying `s` against `input` leaves the acceptor. */
  ghost function Lands(d: Dfa.Dfa, input: string, s: seq<Step>): Option<int> {
    if Consumed(s) <= |input| then Dfa.Walk(d.edges, d.initial, Output(input, s)) else None
  }

  /** Deleting the next character keeps an entry where it is. */
  lemma DeleteOk(d: Dfa.Dfa, input: string, i: nat, q: int, st: Stost)
    requires EntryOk(d, input, i, q, st) && i < |input|
    ensures EntryOk(d, input, i + 1, q, Stost(st.steps + [Delete], st.cost + 10))
  {
    Appended(input, st.steps, Delete);
  }

  /** Keeping the next character follows its transition. */
  lemma KeepOk(d: Dfa.Dfa, input: string, i: nat, q: int, st: Stost)
    requires Dfa.Valid(d) && q in d.edges && EntryOk(d, input, i, q, st) && i < |input| && input[i] in d.edges[q]
    ensures d.edges[q][input[i]] in d.edges
    ensures EntryOk(d, input, i + 1, d.edges[q][input[i]], Stost(st.steps + [Keep], st.cost))
  {
    Appended(input, st.steps, Keep);
    Dfa.WalkConcat(d.edges, d.initial, Output(input, st.steps), [input[i]]);
    Dfa.WalkStaysInside(d, q, [input[i]]);
  }

  ghost predicate Sound(d: Dfa.Dfa, input: string, i: nat, m: Table) {
    && Ordered(m) && i <= |input|
    && forall q | q in m.vals :: q in d.edges && EntryOk(d, input, i, q, m.vals[q])
  }

  /** `r` has every state of `m` at no greater cost. */
  ghost predicate Le(m: Table, r: Table) {
    forall q | q in m.vals :: q in r.vals && r.vals[q].cost <= m.vals[q].cost
  }

  lemma LeTrans(m0: Table, m1: Table, m2: Table)
    requires Le(m0, m1) && Le(m1, m2)
    ensures Le(m0, m2)
  {
  }

  /** A list of distinct members of `s` covering `s` is as long as `s` is large. */
  lemma {:induction false} ListsCard(ks: seq<int>, s: set<int>)
    requires Lists(ks, s)
    ensures |ks| == |s|
    decreases |ks|
  {
    if |ks| == 0 {
      assert forall k | k in s :: false;
    } else {
      var last := ks[|ks| - 1];
      var init := ks[..|ks| - 1];
      assert Lists(init, s - {last}) by {
        forall k | k in s - {last} ensures k in init {
          var j :| 0 <= j < |ks| && ks[j] == k;
          assert j < |ks| - 1;
        }
      }
      ListsCard(init, s - {last});
    }
  }

  /** A subset is no larger than its superset. */
  lemma {:induction false} SubsetCard(a: set<int>, b: set<int>)
    requires a <= b
    ensures |a| <= |b|
    decreases |b|
  {
    if a != {} {
      Inhabited(a);
      var k :| k in a;
      SubsetCard(a - {k}, b - {k});
    }
  }

  /** A sound table has at most one entry per state of the acceptor. */
  lemma SoundCard(d: Dfa.Dfa, input: string, i: nat, m: Table)
    requires Sound(d, input, i, m)
    ensures |m.order| <= |d.edges.Keys|
  {
    ListsCard(m.order, m.vals.Keys);
    assert forall q | q in m.vals.Keys :: q in d.edges.Keys;
    SubsetCard(m.vals.Keys, d.edges.Keys);
  }

  /** Offering a sound entry keeps the table sound, lowers no cost and
      only appends to the order. */
  lemma ImproveSound(d: Dfa.Dfa, input: string, i: nat, m: Table, q: int, st: Stost, n: nat)
    requires Sound(d, input, i, m) && q in d.edges && EntryOk(d, input, i, q, st)
    requires n <= |m.order|
    ensures Sound(d, input, i, Improve(m, q, st)) && Le(m, Improve(m, q, st))
    ensures |Improve(m, q, st).order| >= |m.order| && Improve(m, q, st).order[..n] == m.order[..n]
  {
  }

  /** The insertion of `w` after the entry `st`. */
  function InsertAfter(st: Stost, w: string): Stost {
    Stost(st.steps + [Insert(w)], st.cost + 10 * |w| + 1)
  }

  /** The invariant of `InsertFrom`'s loop: sound, no cost raised, the
      order only extended, and the targets outside `todo` offered. */
  ghost predicate InsertInv(m: Table, r: Table, st: Stost, row: map<int, string>, d: Dfa.Dfa, input: string, i: nat,
                            todo: set<int>) {
    && todo <= row.Keys
    && Sound(d, input, i, r) && Le(m, r) && |r.order| >= |m.order| && r.order[..|m.order|] == m.order
    && forall t | t in row.Keys - todo :: t in r.vals && r.vals[t].cost <= st.cost + 10 * |row[t]| + 1
  }

  /** Offering the insertion of the path to `t` keeps the invariant. */
  lemma InsertStep(m: Table, r: Table, st: Stost, row: map<int, string>, d: Dfa.Dfa, input: string, i: nat,
                   state: int, todo: set<int>, t: int)
    requires Dfa.Valid(d) && state in d.edges && EntryOk(d, input, i, state, st)
    requires forall t | t in row :: Dfa.Walk(d.edges, state, row[t]) == Some(t)
    requires InsertInv(m, r, st, row, d, input, i, todo) && t in todo
    ensures InsertInv(m, Improve(r, t, InsertAfter(st, row[t])), st, row, d, input, i, todo - {t})
  {
    var next := InsertAfter(st, row[t]);
    Appended(input, st.steps, Insert(row[t]));
    Dfa.WalkConcat(d.edges, d.initial, Output(input, st.steps), row[t]);
    Dfa.WalkStaysInside(d, state, row[t]);
    ImproveSound(d, input, i, r, t, next, |m.order|);
    var r' := Improve(r, t, next);
    LeTrans(m, r, r');
    assert r'.order[..|m.order|] == m.order;
    forall u | u in row.Keys - (todo - {t}) ensures u in r'.vals && r'.vals[u].cost <= st.cost + 10 * |row[u]| + 1 {
      if u != t {
        assert u in r.vals;
      }
    }
  }

  /** The inner loop of `doInsertions` for one visited entry `st` of
      `state`: an insertion of each stored path, offered to its target. */
  method InsertFrom(m: Table, st: Stost, row: map<int, string>, ghost d: Dfa.Dfa, ghost input: string, ghost i: nat,
                    ghost state: int) returns (r: Table)
    requires Dfa.Valid(d) && Sound(d, input, i, m) && state in d.edges && EntryOk(d, input, i, state, st)
    requires forall t | t in row :: Dfa.Walk(d.edges, state, row[t]) == Some(t)
    ensures Sound(d, input, i, r) && Le(m, r) && |r.order| >= |m.order| && r.order[..|m.order|] == m.order
    ensures forall t | t in row :: t in r.vals && r.vals[t].cost <= st.cost + 10 * |row[t]| + 1
  {
    r := m;
    var todo := row.Keys;
    while todo != {}
      invariant InsertInv(m, r, st, row, d, input, i, todo)
      decreases todo
    {
      Inhabited(todo);
      var t :| t in todo;
      InsertStep(m, r, st, row, d, input, i, state, todo, t);
      r := Improve(r, t, InsertAfter(st, row[t]));
      todo := todo - {t};
    }
  }

  /** Every state of `m` was visited: each of its paths was offered. */
  ghost predicate Offered(m: Table, r: Table, shortest: Paths, k: int) {
    forall j | 0 <= j < k && j < |m.order| && m.order[j] in m.vals && m.order[j] in shortest ::
      forall t | t in shortest[m.order[j]] ::
        t in r.vals && r.vals[t].cost <= m.vals[m.order[j]].cost + 10 * |shortest[m.order[j]][t]| + 1
  }

  lemma OfferedStep(m: Table, r0: Table, r: Table, shortest: Paths, k: nat, st: Stost)
    requires Offered(m, r0, shortest, k) && Le(r0, r)
    requires k < |m.order| && m.order[k] in m.vals && m.order[k] in shortest ==>
               && st.cost <= m.vals[m.order[k]].cost
               && forall t | t in shortest[m.order[k]] :: t in r.vals && r.vals[t].cost <= st.cost + 10 * |shortest[m.order[k]][t]| + 1
    ensures Offered(m, r, shortest, k + 1)
  {
  }

  /** The invariant of `doInsertions`' loop after `k` visits. */
  ghost predicate DoInv(m: Table, r: Table, shortest: Paths, d: Dfa.Dfa, input: string, i: nat, k: nat) {
    && Sound(d, input, i, r) && Le(m, r) && |r.order| >= |m.order| && r.order[..|m.order|] == m.order
    && k <= |r.order| <= |d.edges.Keys| && Offered(m, r, shortest, k)
  }

  /** One visit of `doInsertions`: the `k`th entry in the order offers its insertions. */
  method InsertVisit(m: Table, r0: Table, shortest: Paths, ghost d: Dfa.Dfa, ghost input: string, ghost i: nat, k: nat)
    returns (r: Table)
    requires Dfa.Valid(d) && PathsOk(d.edges, shortest) && DoInv(m, r0, shortest, d, input, i, k) && k < |r0.order|
    ensures DoInv(m, r, shortest, d, input, i, k + 1)
  {
    var state := r0.order[k];
    var st := r0.vals[state];
    assert k < |m.order| ==> state == m.order[k] by {
      if k < |m.order| {
        assert r0.order[..|m.order|][k] == r0.order[k];
      }
    }
    r := InsertFrom(r0, st, shortest[state], d, input, i, state);
    LeTrans(m, r0, r);
    OfferedStep(m, r0, r, shortest, k, st);
    assert r.order[..|m.order|] == r0.order[..|r0.order|][..|m.order|];
    SoundCard(d, input, i, r);
  }

  /** Once every entry of the original order was visited, every path of
      every original entry was offered. */
  lemma AllOffered(m: Table, r: Table, shortest: Paths, k: nat)
    requires Ordered(m) && Offered(m, r, shortest, k) && |m.order| <= k && m.vals.Keys <= shortest.Keys
    ensures forall q, t | q in m.vals && t in shortest[q] :: t in r.vals && r.vals[t].cost <= m.vals[q].cost + 10 * |shortest[q][t]| + 1
  {
    forall q, t | q in m.vals && t in shortest[q] ensures t in r.vals && r.vals[t].cost <= m.vals[q].cost + 10 * |shortest[q][t]| + 1 {
      assert q in m.order;
      var j :| 0 <= j < |m.order| && m.order[j] == q;
      assert j < k && m.order[j] in m.vals && m.order[j] in shortest;
    }
  }

  /** `doInsertions`: visits the entries in the map's order, including
      those it adds on the way, offering from each the insertion of the
      stored path to every state. */
  method DoInsertions(m: Table, shortest: Paths, ghost d: Dfa.Dfa, ghost input: string, ghost i: nat) returns (r: Table)
    requires Dfa.Valid(d) && Sound(d, input, i, m) && PathsOk(d.edges, shortest)
    ensures Sound(d, input, i, r) && Le(m, r)
    ensures forall q, t | q in m.vals && t in shortest[q] :: t in r.vals && r.vals[t].cost <= m.vals[q].cost + 10 * |shortest[q][t]| + 1
  {
    r := m;
    var k := 0;
    SoundCard(d, input, i, r);
    while k < |r.order|
      invariant DoInv(m, r, shortest, d, input, i, k)
      decreases |d.edges.Keys| - k
    {
      r := InsertVisit(m, r, shortest, d, input, i, k);
      k := k + 1;
    }
    assert forall q | q in m.vals :: q in d.edges;
    AllOffered(m, r, shortest, k);
  }

  /** What one character's step owes the state `q` of the previous table:
      deleting the character keeps `q` at ten more, and keeping it follows
      the transition at no cost. */
  ghost predicate StepDone(d: Dfa.Dfa, t: Table, c: char, next: Table, q: int) {
    q in t.vals ==>
      && q in next.vals && next.vals[q].cost <= t.vals[q].cost + 10
      && (q in d.edges && c in d.edges[q] ==> d.edges[q][c] in next.vals && next.vals[d.edges[q][c]].cost <= t.vals[q].cost)
  }

  /** What the loop body of `diff` offers for one entry `st` of `state`:
      a delete, and a keep where the acceptor has a transition on `c`. */
  method Offer(next: Table, state: int, st: Stost, c: char, d: Dfa.Dfa, ghost input: string, ghost i: nat) returns (r: Table)
    requires Dfa.Valid(d) && i < |input| && c == input[i] && state in d.edges && EntryOk(d, input, i, state, st)
    requires Sound(d, input, i + 1, next)
    ensures Sound(d, input, i + 1, r) && Le(next, r)
    ensures state in r.vals && r.vals[state].cost <= st.cost + 10
    ensures c in d.edges[state] ==> d.edges[state][c] in r.vals && r.vals[d.edges[state][c]].cost <= st.cost
  {
    var del := Stost(st.steps + [Delete], st.cost + 10);
    DeleteOk(d, input, i, state, st);
    ImproveSound(d, input, i + 1, next, state, del, 0);
    r := Improve(next, state, del);
    if c in d.edges[state] {
      var keep := Stost(st.steps + [Keep], st.cost);
      KeepOk(d, input, i, state, st);
      ImproveSound(d, input, i + 1, r, d.edges[state][c], keep, 0);
      LeTrans(next, r, Improve(r, d.edges[state][c], keep));
      r := Improve(r, d.edges[state][c], keep);
    }
  }

  lemma StepsDoneLe(d: Dfa.Dfa, t: Table, c: char, n0: Table, n1: Table, k: int)
    requires Le(n0, n1) && forall j | 0 <= j < k && j < |t.order| :: StepDone(d, t, c, n0, t.order[j])
    ensures forall j | 0 <= j < k && j < |t.order| :: StepDone(d, t, c, n1, t.order[j])
  {
    forall j | 0 <= j < k && j < |t.order| ensures StepDone(d, t, c, n1, t.order[j]) {
      var q := t.order[j];
      assert StepDone(d, t, c, n0, q);
      if q in t.vals {
        assert q in n0.vals;
        if q in d.edges && c in d.edges[q] {
          var x := d.edges[q][c];
          assert x in n0.vals && n0.vals[x].cost <= t.vals[q].cost;
          assert x in n1.vals && n1.vals[x].cost <= n0.vals[x].cost;
        }
      }
    }
  }

  /** The loop body of `diff` for the input character `c` before its
      insertions: every entry is offered a delete and a keep. */
  method Advance(t: Table, c: char, d: Dfa.Dfa, ghost input: string, ghost i: nat) returns (next: Table)
    requires Dfa.Valid(d) && Sound(d, input, i, t) && i < |input| && c == input[i]
    ensures Sound(d, input, i + 1, next)
    ensures forall q | q in t.vals :: StepDone(d, t, c, next, q)
  {
    next := Table([], map[]);
    var k := 0;
    while k < |t.order|
      invariant k <= |t.order| && Sound(d, input, i + 1, next)
      invariant forall j | 0 <= j < k && j < |t.order| :: StepDone(d, t, c, next, t.order[j])
    {
      var state := t.order[k];
      ghost var n0 := next;
      next := Offer(next, state, t.vals[state], c, d, input, i);
      StepsDoneLe(d, t, c, n0, next, k);
      k := k + 1;
    }
    forall q | q in t.vals ensures StepDone(d, t, c, next, q) {
      var j :| 0 <= j < |t.order| && t.order[j] == q;
    }
  }

  /** The final loop of `diff`: of the accepting states in the table, the
      first reached of least cost. */
  method Best(t: Table, accept: set<int>) returns (best: Option<Stost>, ghost q: int)
    ensures best.None? <==> forall s | s in accept :: s !in t.vals
    ensures best.Some? ==> q in accept && q in t.vals && best.value == t.vals[q]
    ensures best.Some? ==> forall s | s in accept && s in t.vals :: best.value.cost <= t.vals[s].cost
  {
    best := None;
    q := 0;
    var todo := accept;
    while todo != {}
      invariant todo <= accept
      invariant best.None? <==> forall s | s in accept - todo :: s !in t.vals
      invariant best.Some? ==> q in accept && q in t.vals && best.value == t.vals[q]
      invariant best.Some? ==> forall s | s in accept - todo && s in t.vals :: best.value.cost <= t.vals[s].cost
      decreases todo
    {
      Inhabited(todo);
      var state :| state in todo;
      if state in t.vals {
        var st := t.vals[state];
        if best.None? || st.cost < best.value.cost {
          best, q := Some(st), state;
        }
      }
      todo := todo - {state};
    }
  }

  // ---------------------------------------------------------------------
  // Optimality

  /** Every script reading `i` characters whose output leads somewhere is
      matched in the table by an entry for that state of no greater cost. */
  ghost predicate Covers(d: Dfa.Dfa, input: string, i: nat, m: Table)
    requires i <= |input|
  {
    forall s: seq<Step> {:trigger Lands(d, input, s)} | Consumed(s) == i && Lands(d, input, s).Some? ::
      Lands(d, input, s).value in m.vals && m.vals[Lands(d, input, s).value].cost <= Cost(s)
  }

  /** `Covers`, for the scripts that do not end in an insertion. */
  ghost predicate CoversKD(d: Dfa.Dfa, input: string, i: nat, m: Table)
    requires i <= |input|
  {
    forall s: seq<Step> {:trigger Lands(d, input, s)} | Consumed(s) == i && (|s| == 0 || !s[|s| - 1].Insert?) && Lands(d, input, s).Some? ::
      Lands(d, input, s).value in m.vals && m.vals[Lands(d, input, s).value].cost <= Cost(s)
  }

  /** A script without its trailing insertions. */
  function Strip(s: seq<Step>): (t: seq<Step>)
    ensures |t| <= |s| && t == s[..|t|]
    ensures |t| == 0 || !t[|t| - 1].Insert?
    ensures forall j | |t| <= j < |s| :: s[j].Insert?
    decreases |s|
  {
    if |s| > 0 && s[|s| - 1].Insert? then Strip(s[..|s| - 1]) else s
  }

  /** The trailing insertions of a script read nothing, write a string
      `tail` after the rest, and cost at least ten per character of it and
      one more if there is any insertion at all. */
  lemma {:induction false} StripTail(input: string, s: seq<Step>) returns (tail: string)
    requires Consumed(s) <= |input|
    ensures Consumed(Strip(s)) == Consumed(s)
    ensures Output(input, s) == Output(input, Strip(s)) + tail
    ensures Cost(s) >= Cost(Strip(s)) + 10 * |tail| + (if |Strip(s)| < |s| then 1 else 0)
    ensures |Strip(s)| == |s| ==> tail == []
    decreases |s|
  {
    if |s| > 0 && s[|s| - 1].Insert? {
      var p := s[..|s| - 1];
      var w := s[|s| - 1].what;
      assert s == p + [Insert(w)];
      Appended(input, p, Insert(w));
      var tp := StripTail(input, p);
      tail := tp + w;
      assert Output(input, Strip(p)) + tp + w == Output(input, Strip(p)) + tail;
    } else {
      tail := [];
      assert Output(input, s) + [] == Output(input, s);
    }
  }

  /** The starting table, before its insertions, covers the scripts of
      nothing but insertions: only the empty one ends without one. */
  lemma StartCovers(d: Dfa.Dfa, input: string)
    ensures CoversKD(d, input, 0, Table([d.initial], map[d.initial := Stost([], 0)]))
  {
    forall s: seq<Step> | Consumed(s) == 0 && (|s| == 0 || !s[|s| - 1].Insert?)
      ensures |s| == 0
    {
      LastReads(s);
    }
  }

  /** A script ending in a keep or a delete reads something. */
  lemma LastReads(s: seq<Step>)
    ensures |s| > 0 && !s[|s| - 1].Insert? ==> Consumed(s) > 0
  {
    if |s| > 0 {
      assert Consumed(s) == Consumed(s[..|s| - 1]) + (if s[|s| - 1].Insert? then 0 else 1);
    }
  }

  /** After `doInsertions`, the table covers every script: a script is a
      covered one without insertions at the end, followed by a string that
      is no shorter than the stored path between the same two states. */
  lemma InsertionsCover(d: Dfa.Dfa, input: string, i: nat, n: Table, r: Table, shortest: Paths)
    requires Dfa.Valid(d) && Sound(d, input, i, n) && CoversKD(d, input, i, n) && Le(n, r) && Shortest(d.edges, shortest)
    requires forall q, t | q in n.vals && t in shortest[q] :: t in r.vals && r.vals[t].cost <= n.vals[q].cost + 10 * |shortest[q][t]| + 1
    ensures Covers(d, input, i, r)
  {
    forall s: seq<Step> | Consumed(s) == i && Lands(d, input, s).Some?
      ensures Lands(d, input, s).value in r.vals && r.vals[Lands(d, input, s).value].cost <= Cost(s)
    {
      var q := Lands(d, input, s).value;
      var tail := StripTail(input, s);
      var t := Strip(s);
      Dfa.WalkConcat(d.edges, d.initial, Output(input, t), tail);
      var q0 := Lands(d, input, t).value;
      assert q0 in n.vals && n.vals[q0].cost <= Cost(t);
      if |t| == |s| {
        assert t == s;
      } else {
        Dfa.WalkStaysInside(d, q0, tail);
        assert Reach(d.edges, q0, tail) == Some(q);
      }
    }
  }

  /** After `Advance`, the table covers every script that ends in a keep or
      a delete: dropping that last step leaves a script the previous table
      covers. */
  lemma AdvanceCovers(d: Dfa.Dfa, input: string, i: nat, t: Table, next: Table)
    requires i < |input| && Covers(d, input, i, t)
    requires forall q | q in t.vals :: StepDone(d, t, input[i], next, q)
    ensures CoversKD(d, input, i + 1, next)
  {
    forall s: seq<Step> | Consumed(s) == i + 1 && (|s| == 0 || !s[|s| - 1].Insert?) && Lands(d, input, s).Some?
      ensures Lands(d, input, s).value in next.vals && next.vals[Lands(d, input, s).value].cost <= Cost(s)
    {
      var p := s[..|s| - 1];
      var x := s[|s| - 1];
      assert s == p + [x];
      assert Consumed(p) == i;
      Appended(input, p, x);
      if x.Keep? {
        Dfa.WalkConcat(d.edges, d.initial, Output(input, p), [input[i]]);
      }
      var q0 := Lands(d, input, p).value;
      assert StepDone(d, t, input[i], next, q0);
    }
  }

  /** One pass of the main loop of `diff`: a step on the character `c`
      and then the insertions. */
  method Round(cur: Table, c: char, shortest: Paths, d: Dfa.Dfa, ghost input: string, ghost i: nat) returns (r: Table)
    requires Dfa.Valid(d) && Shortest(d.edges, shortest) && i < |input| && c == input[i]
    requires Sound(d, input, i, cur) && Covers(d, input, i, cur)
    ensures Sound(d, input, i + 1, r) && Covers(d, input, i + 1, r)
  {
    var next := Advance(cur, c, d, input, i);
    AdvanceCovers(d, input, i, cur, next);
    r := DoInsertions(next, shortest, d, input, i + 1);
    InsertionsCover(d, input, i + 1, next, r, shortest);
  }

  /** A final table holding no accepting state means that no script
      reading the whole input ends in one. */
  lemma NoneAccepted(d: Dfa.Dfa, input: string, t: Table)
    requires Covers(d, input, |input|, t) && forall s | s in t.vals :: s !in d.accept
    ensures forall s | Consumed(s) == |input| :: !Dfa.Accepts(d, Output(input, s))
  {
    forall s | Consumed(s) == |input| ensures !Dfa.Accepts(d, Output(input, s)) {
      var w := Lands(d, input, s);
      assert w == Dfa.Walk(d.edges, d.initial, Output(input, s));
      if w.Some? {
        var q := w.value;
        assert q in t.vals;
        assert q !in d.accept;
      }
    }
  }

  /** The cheapest accepting entry of a final table is an accepted script
      reading the whole input, and no such script is cheaper. */
  lemma BestAccepted(d: Dfa.Dfa, input: string, t: Table, q: int)
    requires Sound(d, input, |input|, t) && Covers(d, input, |input|, t)
    requires q in d.accept && q in t.vals && forall s | s in d.accept && s in t.vals :: t.vals[q].cost <= t.vals[s].cost
    ensures Consumed(t.vals[q].steps) == |input| && Dfa.Accepts(d, Output(input, t.vals[q].steps))
    ensures forall s | Consumed(s) == |input| && Dfa.Accepts(d, Output(input, s)) :: Cost(t.vals[q].steps) <= Cost(s)
  {
    var best := t.vals[q];
    assert EntryOk(d, input, |input|, q, best);
    forall s | Consumed(s) == |input| && Dfa.Accepts(d, Output(input, s)) ensures Cost(best.steps) <= Cost(s) {
      var w := Lands(d, input, s);
      assert w == Dfa.Walk(d.edges, d.initial, Output(input, s));
      var q' := w.value;
      assert q' in d.accept && q' in t.vals && t.vals[q'].cost <= Cost(s);
    }
  }

  /** `diff`: the cheapest edit script that turns `input` into a string
      the acceptor accepts, or `NoAcceptingEntry` when no script reaches an
      accepting state (where the original dereferences a null). */
  method Diff(d: Dfa.Dfa, input: string) returns (r: Result<seq<Step>>)
    requires Dfa.Valid(d)
    ensures r.Ok? ==> Consumed(r.value) == |input| && Dfa.Accepts(d, Output(input, r.value))
    ensures r.Ok? ==> forall s | Consumed(s) == |input| && Dfa.Accepts(d, Output(input, s)) :: Cost(r.value) <= Cost(s)
    ensures r.Err? ==> r.error == NoAcceptingEntry && forall s | Consumed(s) == |input| :: !Dfa.Accepts(d, Output(input, s))
  {
    var shortest := AllPairsShortestPath(d.edges);
    var m := Table([d.initial], map[d.initial := Stost([], 0)]);
    StartCovers(d, input);
    var cur := DoInsertions(m, shortest, d, input, 0);
    InsertionsCover(d, input, 0, m, cur, shortest);
    var i := 0;
    while i < |input|
      invariant i <= |input| && Sound(d, input, i, cur) && Covers(d, input, i, cur)
    {
      cur := Round(cur, input[i], shortest, d, input, i);
      i := i + 1;
    }
    var best, q := Best(cur, d.accept);
    if best.None? {
      NoneAccepted(d, input, cur);
      r := Err(NoAcceptingEntry);
    } else {
      BestAccepted(d, input, cur, q);
      r := Ok(best.value.steps);
    }
  }

  /** `diffFor`: compile the parsed pattern for the input and diff the
      input against the acceptor; the compiler's errors pass through. */
  method DiffFor(arena: Nfa.Arena, ctr: Dfa.Counter, e: RegexAst.Node, input: string, lazy: bool, visible: char -> bool)
    returns (r: Result<seq<Step>>, ghost compiled: Dfa.Dfa)
    requires Compiler.Ready(arena, ctr)
    modifies arena, ctr
    ensures Compiler.Problem(e).Some? ==> r == Err(Unsupported(Compiler.Problem(e).value))
    ensures Compiler.Problem(e).None? && compiled.accept == {} ==> r == Err(Unmatchable)
    ensures Compiler.Problem(e).None? && compiled.accept != {} ==>
              var d := if lazy then Dfa.Trimmed(compiled) else compiled;
              && (r.Ok? ==> Consumed(r.value) == |input| && Dfa.Accepts(d, Output(input, r.value)))
              && (r.Ok? ==> forall s | Consumed(s) == |input| && Dfa.Accepts(d, Output(input, s)) :: Cost(r.value) <= Cost(s))
              && (r.Err? ==> r.error == NoAcceptingEntry && forall s | Consumed(s) == |input| :: !Dfa.Accepts(d, Output(input, s)))
  {
    var c, cs;
    c, cs, compiled := Compiler.CompileFor(arena, ctr, e, input, lazy, visible);
    if c.Err? {
      return Err(c.error), compiled;
    }
    r := Diff(c.value, input);
  }
}
