/** `toDfaRev` and `dfaToNfa`: the subset construction, read backwards, and
    the conversion of an acceptor back into a graph of the arena. */
module Subset {
  import opened Base
  import opened Nfa
  import Dfa

  /** The graph `toDfaRev` reads: each node's `back` list and the records. */
  datatype Graph = Graph(d: seq<seq<nat>>, t: seq<Transition>)

  ghost predicate GraphOk(g: Graph) {
    forall x, i | 0 <= x < |g.d| && 0 <= i < |g.d[x]| :: g.d[x][i] < |g.t| && g.t[g.d[x][i]].from < |g.d|
  }

  /** The moves of `x` read backwards (`edges(x, true)`). */
  function Arcs(g: Graph, x: nat): (r: seq<Arc>)
    requires GraphOk(g) && x < |g.d|
    ensures |r| == |g.d[x]| && forall i | 0 <= i < |r| :: r[i].to < |g.d|
  {
    ArcsOf(g.d[x], g.t, true)
  }

  /** The far ends of the epsilon moves of `x`. */
  ghost function EpsTargets(g: Graph, x: nat): set<nat>
    requires GraphOk(g) && x < |g.d|
  {
    set i | 0 <= i < |g.d[x]| && Arcs(g, x)[i].at.None? :: Arcs(g, x)[i].to
  }

  /** The far ends of the moves on `ch` among the first `j` moves of `x`. */
  ghost function PartTargets(g: Graph, x: nat, j: nat, ch: char): set<nat>
    requires GraphOk(g) && x < |g.d| && j <= |g.d[x]|
  {
    set i | 0 <= i < j && Arcs(g, x)[i].at == Some(ch) :: Arcs(g, x)[i].to
  }

  /** The far ends of the moves on `ch` of the nodes `p`. */
  ghost function Targets(g: Graph, p: set<nat>, ch: char): set<nat>
    requires GraphOk(g)
  {
    set x, i | x in p && x < |g.d| && 0 <= i < |g.d[x]| && Arcs(g, x)[i].at == Some(ch) :: Arcs(g, x)[i].to
  }

  /** The characters the nodes `p` have moves on. */
  ghost function Labels(g: Graph, p: set<nat>): set<char>
    requires GraphOk(g)
  {
    set x, i | x in p && x < |g.d| && 0 <= i < |g.d[x]| && Arcs(g, x)[i].at.Some? :: Arcs(g, x)[i].at.value
  }

  /** The moves of the set `p`, by character (`edge` in `toDfaRev`). */
  ghost function Moves(g: Graph, p: set<nat>): map<char, set<nat>>
    requires GraphOk(g)
  {
    map ch | ch in Labels(g, p) :: Targets(g, p, ch)
  }

  /** `edge` collects the moves of `p` and the first `j` moves of `x`. */
  ghost predicate EdgesPart(g: Graph, edge: map<char, set<nat>>, p: set<nat>, x: nat, j: nat)
    requires GraphOk(g) && x < |g.d| && j <= |g.d[x]|
  {
    forall ch ::
      && (ch in edge ==> edge[ch] == Targets(g, p, ch) + PartTargets(g, x, j, ch) && edge[ch] != {})
      && (ch !in edge ==> Targets(g, p, ch) + PartTargets(g, x, j, ch) == {})
  }

  lemma PartTargetsStep(g: Graph, x: nat, j: nat, ch: char)
    requires GraphOk(g) && x < |g.d| && j < |g.d[x]|
    ensures PartTargets(g, x, j + 1, ch) ==
      PartTargets(g, x, j, ch) + (if Arcs(g, x)[j].at == Some(ch) then {Arcs(g, x)[j].to} else {})
  {
  }

  lemma TargetsAdd(g: Graph, p: set<nat>, x: nat, ch: char)
    requires GraphOk(g) && x < |g.d|
    ensures Targets(g, p + {x}, ch) == Targets(g, p, ch) + PartTargets(g, x, |g.d[x]|, ch)
  {
    forall y | y in Targets(g, p + {x}, ch) ensures y in Targets(g, p, ch) + PartTargets(g, x, |g.d[x]|, ch) {
      var z, i :| z in p + {x} && z < |g.d| && 0 <= i < |g.d[z]| && Arcs(g, z)[i].at == Some(ch) && Arcs(g, z)[i].to == y;
      if z !in p {
        assert z == x;
      }
    }
  }

  /** A character labels a move of `p` exactly when some move of `p` on it has a far end. */
  lemma LabelsHaveTargets(g: Graph, p: set<nat>, ch: char)
    requires GraphOk(g)
    ensures ch in Labels(g, p) <==> Targets(g, p, ch) != {}
  {
    if ch in Labels(g, p) {
      var z, i :| z in p && z < |g.d| && 0 <= i < |g.d[z]| && Arcs(g, z)[i].at.Some? && Arcs(g, z)[i].at.value == ch;
      assert Arcs(g, z)[i].to in Targets(g, p, ch);
    }
    if Targets(g, p, ch) != {} {
      var y :| y in Targets(g, p, ch);
      var z, i :| z in p && z < |g.d| && 0 <= i < |g.d[z]| && Arcs(g, z)[i].at == Some(ch) && Arcs(g, z)[i].to == y;
      assert ch in Labels(g, p);
    }
  }

  function Elems(s: seq<nat>): set<nat> {
    set k | 0 <= k < |s| :: s[k]
  }

  /** Every state of `c` outside `s` was reached by an epsilon move from a
      state of lower rank: `c` holds nothing unreachable from `s`. */
  ghost predicate Certified(g: Graph, s: set<nat>, c: set<nat>, rank: map<nat, nat>, par: map<nat, nat>)
    requires GraphOk(g)
  {
    && (forall y | y in c :: y in rank)
    && (forall y | y in c && y !in s ::
          y in par && par[y] in c && par[y] < |g.d| && par[y] in rank && rank[par[y]] < rank[y] && y in EpsTargets(g, par[y]))
  }

  /** `c` is the epsilon closure of `s`: it contains `s`, is closed under
      epsilon moves, and holds only states reachable from `s`. */
  ghost predicate IsClosure(g: Graph, s: set<nat>, c: set<nat>)
    requires GraphOk(g)
  {
    && s <= c
    && (forall x | x in c :: x < |g.d| && EpsTargets(g, x) <= c)
    && exists rank, par :: Certified(g, s, c, rank, par)
  }

  lemma {:induction false} CertifiedInside(g: Graph, s: set<nat>, c: set<nat>, rank: map<nat, nat>, par: map<nat, nat>,
                                           e: set<nat>, y: nat)
    requires GraphOk(g) && Certified(g, s, c, rank, par) && y in c
    requires s <= e && forall x | x in e :: x < |g.d| && EpsTargets(g, x) <= e
    ensures y in e
    decreases rank[y]
  {
    if y !in s {
      CertifiedInside(g, s, c, rank, par, e, par[y]);
    }
  }

  /** The closure of a set is unique: a closure is contained in every
      epsilon-closed superset of `s`. */
  lemma ClosureUnique(g: Graph, s: set<nat>, c1: set<nat>, c2: set<nat>)
    requires GraphOk(g) && IsClosure(g, s, c1) && IsClosure(g, s, c2)
    ensures c1 == c2
  {
    var r1, p1 :| Certified(g, s, c1, r1, p1);
    var r2, p2 :| Certified(g, s, c2, r2, p2);
    forall y | y in c1 ensures y in c2 { CertifiedInside(g, s, c1, r1, p1, c2, y); }
    forall y | y in c2 ensures y in c1 { CertifiedInside(g, s, c2, r2, p2, c1, y); }
  }

  /** `edge` holds exactly the moves of `p`. */
  ghost predicate EdgesOf(g: Graph, edge: map<char, set<nat>>, p: set<nat>)
    requires GraphOk(g)
  {
    forall ch ::
      && (ch in edge ==> edge[ch] == Targets(g, p, ch) && edge[ch] != {})
      && (ch !in edge ==> Targets(g, p, ch) == {})
  }

  lemma EdgesOfMoves(g: Graph, edge: map<char, set<nat>>, p: set<nat>)
    requires GraphOk(g) && EdgesOf(g, edge, p)
    ensures edge == Moves(g, p)
  {
    forall ch ensures (ch in edge <==> ch in Labels(g, p)) && (ch in edge ==> edge[ch] == Targets(g, p, ch)) {
      LabelsHaveTargets(g, p, ch);
    }
    assert edge.Keys == Labels(g, p);
  }

  /** The state of the closure loop of `toDfaRev` for the set `s`: `mada`
      is the stack, `madaed` the states ever pushed after the start, `p` the
      states whose moves were scanned, `pend` the one being scanned; `rank`
      and `par` record how each pushed state was reached. */
  ghost predicate ScanOk(g: Graph, s: set<nat>, mada: seq<nat>, madaed: set<nat>, p: set<nat>, pend: set<nat>,
                         rank: map<nat, nat>, par: map<nat, nat>, cnt: nat) {
    && GraphOk(g)
    && (forall k | 0 <= k < |mada| :: mada[k] < |g.d|)
    && (forall x | x in s + madaed :: x < |g.d|)
    && s + madaed == p + Elems(mada) + pend
    && (forall x | x in p :: x < |g.d| && EpsTargets(g, x) <= madaed)
    && (forall y | y in s + madaed :: y in rank && rank[y] <= cnt)
    && (forall y | y in madaed && y !in s ::
          y in par && par[y] in s + madaed && par[y] < |g.d| && rank[par[y]] < rank[y] && y in EpsTargets(g, par[y]))
  }

  lemma ScanPop(g: Graph, s: set<nat>, mada: seq<nat>, madaed: set<nat>, p: set<nat>,
                rank: map<nat, nat>, par: map<nat, nat>, cnt: nat)
    requires ScanOk(g, s, mada, madaed, p, {}, rank, par, cnt) && |mada| > 0
    ensures ScanOk(g, s, mada[..|mada| - 1], madaed, p, {mada[|mada| - 1]}, rank, par, cnt)
  {
    var rest, x := mada[..|mada| - 1], mada[|mada| - 1];
    assert mada == rest + [x];
    assert Elems(mada) == Elems(rest) + {x} by {
      forall y | y in Elems(mada) ensures y in Elems(rest) + {x} {
        var k :| 0 <= k < |mada| && mada[k] == y;
        if k < |rest| { assert rest[k] == y; }
      }
      forall y | y in Elems(rest) ensures y in Elems(mada) {
        var k :| 0 <= k < |rest| && rest[k] == y;
        assert mada[k] == y;
      }
    }
  }

  lemma ElemsPush(s: seq<nat>, x: nat)
    ensures Elems(s + [x]) == Elems(s) + {x}
  {
    forall y | y in Elems(s + [x]) ensures y in Elems(s) + {x} {
      var k :| 0 <= k < |s + [x]| && (s + [x])[k] == y;
      if k < |s| { assert s[k] == y; }
    }
    forall y | y in Elems(s) ensures y in Elems(s + [x]) {
      var k :| 0 <= k < |s| && s[k] == y;
      assert (s + [x])[k] == y;
    }
    assert (s + [x])[|s|] == x;
  }

  /** Pushing a newly reached state `y`, reached from `code` by an epsilon move. */
  lemma ScanPush(g: Graph, s: set<nat>, mada: seq<nat>, madaed: set<nat>, p: set<nat>, code: nat,
                 rank: map<nat, nat>, par: map<nat, nat>, cnt: nat, y: nat)
    requires ScanOk(g, s, mada, madaed, p, {code}, rank, par, cnt) && code < |g.d|
    requires y !in madaed && y in EpsTargets(g, code)
    ensures y in s ==> ScanOk(g, s, mada + [y], madaed + {y}, p, {code}, rank, par, cnt)
    ensures y !in s ==> ScanOk(g, s, mada + [y], madaed + {y}, p, {code}, rank[y := cnt + 1], par[y := code], cnt + 1)
  {
    ElemsPush(mada, y);
    assert y < |g.d|;
  }

  lemma EdgesStart(g: Graph, edge: map<char, set<nat>>, p: set<nat>, x: nat)
    requires GraphOk(g) && x < |g.d| && EdgesOf(g, edge, p)
    ensures EdgesPart(g, edge, p, x, 0)
  {
    forall ch ensures PartTargets(g, x, 0, ch) == {} {}
  }

  /** Scanning the epsilon move `j` of `x` leaves `edge` as it is. */
  lemma EdgesStepEps(g: Graph, edge: map<char, set<nat>>, p: set<nat>, x: nat, j: nat)
    requires GraphOk(g) && x < |g.d| && j < |g.d[x]| && EdgesPart(g, edge, p, x, j) && Arcs(g, x)[j].at.None?
    ensures EdgesPart(g, edge, p, x, j + 1)
  {
    forall ch ensures PartTargets(g, x, j + 1, ch) == PartTargets(g, x, j, ch) {
      PartTargetsStep(g, x, j, ch);
    }
  }

  /** Scanning the move `j` of `x` on `c` to `y` adds `y` to `edge[c]`. */
  lemma EdgesStepChar(g: Graph, edge: map<char, set<nat>>, p: set<nat>, x: nat, j: nat, c: char, y: nat)
    requires GraphOk(g) && x < |g.d| && j < |g.d[x]| && EdgesPart(g, edge, p, x, j)
    requires Arcs(g, x)[j].at == Some(c) && Arcs(g, x)[j].to == y
    ensures EdgesPart(g, edge[c := (if c in edge then edge[c] else {}) + {y}], p, x, j + 1)
  {
    var edge' := edge[c := (if c in edge then edge[c] else {}) + {y}];
    forall ch ensures
      && (ch in edge' ==> edge'[ch] == Targets(g, p, ch) + PartTargets(g, x, j + 1, ch) && edge'[ch] != {})
      && (ch !in edge' ==> Targets(g, p, ch) + PartTargets(g, x, j + 1, ch) == {})
    {
      PartTargetsStep(g, x, j, ch);
    }
  }

  lemma EdgesFinish(g: Graph, edge: map<char, set<nat>>, p: set<nat>, x: nat)
    requires GraphOk(g) && x < |g.d| && EdgesPart(g, edge, p, x, |g.d[x]|)
    ensures EdgesOf(g, edge, p + {x})
  {
    forall ch ensures Targets(g, p + {x}, ch) == Targets(g, p, ch) + PartTargets(g, x, |g.d[x]|, ch) {
      TargetsAdd(g, p, x, ch);
    }
  }

  /** The far ends of the first `j` epsilon moves of `x` were pushed. */
  ghost predicate EpsDone(g: Graph, x: nat, j: nat, madaed: set<nat>)
    requires GraphOk(g) && x < |g.d| && j <= |g.d[x]|
  {
    forall i | 0 <= i < j && Arcs(g, x)[i].at.None? :: Arcs(g, x)[i].to in madaed
  }

  lemma EpsDoneStep(g: Graph, x: nat, j: nat, madaed: set<nat>, madaed': set<nat>)
    requires GraphOk(g) && x < |g.d| && j < |g.d[x]| && EpsDone(g, x, j, madaed) && madaed <= madaed'
    requires Arcs(g, x)[j].at.None? ==> Arcs(g, x)[j].to in madaed'
    ensures EpsDone(g, x, j + 1, madaed')
  {
  }

  /** The state of the inner loop of `toDfaRev` after `j` moves of `code`. */
  ghost predicate NodeScan(g: Graph, s: set<nat>, code: nat, j: nat, mada: seq<nat>, madaed: set<nat>, edge: map<char, set<nat>>,
                           p: set<nat>, rank: map<nat, nat>, par: map<nat, nat>, cnt: nat)
  {
    && ScanOk(g, s, mada, madaed, p, {code}, rank, par, cnt)
    && code < |g.d| && j <= |g.d[code]|
    && EdgesPart(g, edge, p, code, j)
    && EpsDone(g, code, j, madaed)
  }

  lemma ScanDone(g: Graph, s: set<nat>, code: nat, mada: seq<nat>, madaed: set<nat>, edge: map<char, set<nat>>,
                 p: set<nat>, rank: map<nat, nat>, par: map<nat, nat>, cnt: nat)
    requires GraphOk(g) && code < |g.d| && NodeScan(g, s, code, |g.d[code]|, mada, madaed, edge, p, rank, par, cnt)
    ensures ScanOk(g, s, mada, madaed, p + {code}, {}, rank, par, cnt) && EdgesOf(g, edge, p + {code})
  {
    EdgesFinish(g, edge, p, code);
  }

  /** One move `arc` (the `j`th) of `code`. */
  method ScanArc(ghost g: Graph, code: nat, arc: Arc, ghost j: nat, mada0: seq<nat>, madaed0: set<nat>, edge0: map<char, set<nat>>,
                 ghost s: set<nat>, ghost p: set<nat>, ghost rank0: map<nat, nat>, ghost par0: map<nat, nat>, ghost cnt0: nat)
    returns (mada: seq<nat>, madaed: set<nat>, edge: map<char, set<nat>>, ghost rank: map<nat, nat>, ghost par: map<nat, nat>, ghost cnt: nat)
    requires NodeScan(g, s, code, j, mada0, madaed0, edge0, p, rank0, par0, cnt0) && j < |g.d[code]| && arc == Arcs(g, code)[j]
    ensures NodeScan(g, s, code, j + 1, mada, madaed, edge, p, rank, par, cnt)
    ensures madaed0 <= madaed && (madaed == madaed0 ==> mada == mada0)
  {
    mada, madaed, edge, rank, par, cnt := mada0, madaed0, edge0, rank0, par0, cnt0;
    if arc.at.None? {
      EdgesStepEps(g, edge, p, code, j);
      if arc.to !in madaed {
        assert arc.to in EpsTargets(g, code);
        ScanPush(g, s, mada, madaed, p, code, rank, par, cnt, arc.to);
        if arc.to !in s {
          rank, par, cnt := rank[arc.to := cnt + 1], par[arc.to := code], cnt + 1;
        }
        mada := mada + [arc.to];
        madaed := madaed + {arc.to};
      }
    } else {
      EdgesStepChar(g, edge, p, code, j, arc.at.value, arc.to);
      var e := if arc.at.value in edge then edge[arc.at.value] else {};
      edge := edge[arc.at.value := e + {arc.to}];
    }
    EpsDoneStep(g, code, j, madaed0, madaed);
  }

  /** The inner loop over the moves of `code`: push the far end of each
      epsilon move not yet pushed, and collect the character moves in `edge`. */
  method ScanNode(arena: Arena, ghost g: Graph, code: nat, mada0: seq<nat>, madaed0: set<nat>, edge0: map<char, set<nat>>,
                  ghost s: set<nat>, ghost p: set<nat>, ghost rank0: map<nat, nat>, ghost par0: map<nat, nat>, ghost cnt0: nat)
    returns (mada: seq<nat>, madaed: set<nat>, edge: map<char, set<nat>>, ghost rank: map<nat, nat>, ghost par: map<nat, nat>, ghost cnt: nat)
    requires arena.Valid() && g == Graph(arena.back, arena.trans) && code < |g.d|
    requires ScanOk(g, s, mada0, madaed0, p, {code}, rank0, par0, cnt0) && EdgesOf(g, edge0, p)
    ensures ScanOk(g, s, mada, madaed, p + {code}, {}, rank, par, cnt) && EdgesOf(g, edge, p + {code})
    ensures madaed0 <= madaed && (madaed == madaed0 ==> mada == mada0)
  {
    mada, madaed, edge, rank, par, cnt := mada0, madaed0, edge0, rank0, par0, cnt0;
    var arcs := arena.Edges(code, true);
    assert arcs == Arcs(g, code);
    EdgesStart(g, edge, p, code);
    var j := 0;
    while j < |arcs|
      invariant 0 <= j <= |arcs|
      invariant NodeScan(g, s, code, j, mada, madaed, edge, p, rank, par, cnt)
      invariant madaed0 <= madaed && (madaed == madaed0 ==> mada == mada0)
    {
      mada, madaed, edge, rank, par, cnt := ScanArc(g, code, arcs[j], j, mada, madaed, edge, s, p, rank, par, cnt);
      j := j + 1;
    }
    ScanDone(g, s, code, mada, madaed, edge, p, rank, par, cnt);
  }

  /** `[...da]`: the members of a set, in some order. */
  method Enumerate(da: set<nat>) returns (q: seq<nat>)
    ensures Elems(q) == da
  {
    q := [];
    var rest := da;
    while rest != {}
      invariant rest <= da && Elems(q) + rest == da
      decreases |rest|
    {
      var x :| x in rest;
      ElemsPush(q, x);
      q := q + [x];
      rest := rest - {x};
    }
    assert Elems(q) + {} == Elems(q);
  }

  lemma ScanStart(g: Graph, da: set<nat>, mada: seq<nat>)
    requires GraphOk(g) && Elems(mada) == da && forall x | x in da :: x < |g.d|
    ensures ScanOk(g, da, mada, {}, {}, {}, map x | x in da :: 0, map[], 0)
    ensures EdgesOf(g, map[], {})
  {
    forall k | 0 <= k < |mada| ensures mada[k] < |g.d| {
      assert mada[k] in Elems(mada);
    }
  }

  lemma ScanFinish(g: Graph, da: set<nat>, madaed: set<nat>, p: set<nat>, rank: map<nat, nat>, par: map<nat, nat>, cnt: nat)
    requires ScanOk(g, da, [], madaed, p, {}, rank, par, cnt)
    ensures IsClosure(g, da, p)
  {
    assert Elems([]) == {};
    assert Certified(g, da, p, rank, par);
  }

  /** The closure loop of `toDfaRev` for the state `da` with id `us`: it
      marks `us` accepting when the closure of `da` holds `end`, and returns
      the moves of that closure by character. */
  method CloseSet(arena: Arena, ghost g: Graph, da: set<nat>, us: int, end: nat, accept0: set<int>)
    returns (edge: map<char, set<nat>>, accept: set<int>, ghost c: set<nat>)
    requires arena.Valid() && g == Graph(arena.back, arena.trans) && forall x | x in da :: x < |g.d|
    ensures IsClosure(g, da, c) && edge == Moves(g, c)
    ensures accept == accept0 + (if end in c then {us} else {})
  {
    var mada := Enumerate(da);
    var madaed: set<nat> := {};
    edge, accept := map[], accept0;
    ghost var p: set<nat> := {};
    ghost var rank: map<nat, nat>, par: map<nat, nat>, cnt: nat := map x | x in da :: 0, map[], 0;
    ScanStart(g, da, mada);
    ghost var universe := IdsBelow(|g.d|);
    while |mada| > 0
      invariant ScanOk(g, da, mada, madaed, p, {}, rank, par, cnt) && EdgesOf(g, edge, p)
      invariant madaed <= universe
      invariant accept == accept0 + (if end in p then {us} else {})
      decreases |universe - madaed|, |mada|
    {
      ScanPop(g, da, mada, madaed, p, rank, par, cnt);
      var code := mada[|mada| - 1];
      mada := mada[..|mada| - 1];
      if code == end {
        accept := accept + {us};
      }
      ghost var madaed1 := madaed;
      mada, madaed, edge, rank, par, cnt := ScanNode(arena, g, code, mada, madaed, edge, da, p, rank, par, cnt);
      p := p + {code};
      SubsetMeasure(universe, madaed1, madaed);
    }
    ScanFinish(g, da, madaed, p, rank, par, cnt);
    EdgesOfMoves(g, edge, p);
    c := p;
  }

  /** `row` is the transition map of a state whose closure has the moves
      `mv`: one transition per character, to the state of its target set. */
  ghost predicate RowIs(memo: map<set<nat>, int>, mv: map<char, set<nat>>, row: map<char, int>) {
    && row.Keys == mv.Keys
    && forall ch | ch in mv :: mv[ch] in memo && row[ch] == memo[mv[ch]]
  }

  /** The state of the set `S` is complete: `cl[S]` is its closure, it
      accepts exactly when the closure holds `end`, and its row follows the
      moves of the closure. */
  ghost predicate Done(g: Graph, end: nat, memo: map<set<nat>, int>, edges: map<int, map<char, int>>, accept: set<int>,
                       cl: map<set<nat>, set<nat>>, S: set<nat>)
    requires GraphOk(g) && S in memo && memo[S] in edges
  {
    && S in cl && IsClosure(g, S, cl[S])
    && (memo[S] in accept <==> end in cl[S])
    && RowIs(memo, Moves(g, cl[S]), edges[memo[S]])
  }

  /** The ids of `memo` are distinct, drawn from `[n0, n)`, and are exactly the states of `edges`. */
  ghost predicate IdsOk(n0: int, n: int, memo: map<set<nat>, int>, edges: map<int, map<char, int>>, accept: set<int>) {
    && n0 <= n
    && (forall S | S in memo :: n0 <= memo[S] < n)
    && (forall S, T | S in memo && T in memo && S != T :: memo[S] != memo[T])
    && edges.Keys == memo.Values
    && accept <= edges.Keys
  }

  /** The frontier holds distinct known sets, none of them the one being
      worked on, each with no transitions yet and not accepting. */
  ghost predicate Waiting(memo: map<set<nat>, int>, frontier: seq<set<nat>>, edges: map<int, map<char, int>>, accept: set<int>,
                          busy: set<set<nat>>) {
    && (forall i | 0 <= i < |frontier| :: frontier[i] in memo && frontier[i] !in busy)
    && (forall i, j | 0 <= i < j < |frontier| :: frontier[i] != frontier[j])
    && (forall i | 0 <= i < |frontier| :: memo[frontier[i]] in edges && edges[memo[frontier[i]]] == map[] && memo[frontier[i]] !in accept)
    && busy <= memo.Keys
  }

  /** The invariant of the worklist loop of `toDfaRev`. */
  ghost predicate DWork(g: Graph, end: nat, n0: int, n: int, memo: map<set<nat>, int>, frontier: seq<set<nat>>,
                        edges: map<int, map<char, int>>, accept: set<int>, cl: map<set<nat>, set<nat>>, busy: set<set<nat>>) {
    && GraphOk(g)
    && (forall S, x | S in memo && x in S :: x < |g.d|)
    && IdsOk(n0, n, memo, edges, accept)
    && Waiting(memo, frontier, edges, accept, busy)
    && (forall S | S in memo && S !in busy && S !in frontier :: Done(g, end, memo, edges, accept, cl, S))
  }

  /** `joinGet` of `toDfaRev`: the state
      of the set `p`, a fresh one pushed on the frontier when `p` is new. */
  method JoinGet(ctr: Dfa.Counter, memo: map<set<nat>, int>, frontier: seq<set<nat>>, edges: map<int, map<char, int>>, p: set<nat>)
    returns (id: int, memo': map<set<nat>, int>, frontier': seq<set<nat>>, edges': map<int, map<char, int>>)
    modifies ctr
    ensures p in memo' && memo'[p] == id
    ensures p in memo ==> id == memo[p] && memo' == memo && frontier' == frontier && edges' == edges && ctr.n == old(ctr.n)
    ensures p !in memo ==> && id == old(ctr.n) && ctr.n == id + 1 && memo' == memo[p := id]
                           && frontier' == frontier + [p] && edges' == edges[id := map[]]
  {
    if p in memo {
      id, memo', frontier', edges' := memo[p], memo, frontier, edges;
    } else {
      id, edges' := Dfa.NewState(ctr, edges);
      memo' := memo[p := id];
      frontier' := frontier + [p];
    }
  }

  /** A new set gets a fresh state at the back of the frontier. */
  lemma DWorkNew(g: Graph, end: nat, n0: int, n: int, memo: map<set<nat>, int>, frontier: seq<set<nat>>,
                 edges: map<int, map<char, int>>, accept: set<int>, cl: map<set<nat>, set<nat>>, busy: set<set<nat>>, p: set<nat>)
    requires DWork(g, end, n0, n, memo, frontier, edges, accept, cl, busy)
    requires p !in memo && forall x | x in p :: x < |g.d|
    ensures DWork(g, end, n0, n + 1, memo[p := n], frontier + [p], edges[n := map[]], accept, cl, busy)
  {
    var memo', edges' := memo[p := n], edges[n := map[]];
    assert n !in edges;
    assert edges'.Keys == memo'.Values by {
      forall k | k in memo'.Values ensures k in edges'.Keys {
        var S :| S in memo' && memo'[S] == k;
        if S != p { assert memo[S] in memo.Values; }
      }
      forall k | k in edges'.Keys ensures k in memo'.Values {
        if k != n {
          assert k in memo.Values;
          var S :| S in memo && memo[S] == k;
          assert memo'[S] == k;
        } else {
          assert memo'[p] == n;
        }
      }
    }
    assert IdsOk(n0, n + 1, memo', edges', accept);
    assert Waiting(memo', frontier + [p], edges', accept, busy) by {
      forall i | 0 <= i < |frontier| ensures memo'[frontier[i]] != n {
        assert memo[frontier[i]] in memo.Values;
      }
    }
    forall S | S in memo' && S !in busy && S !in frontier + [p] ensures Done(g, end, memo', edges', accept, cl, S) {
      assert Done(g, end, memo, edges, accept, cl, S);
      assert memo[S] in memo.Values;
    }
  }

  /** Changing the row of the state being worked on keeps the invariant. */
  lemma DWorkRow(g: Graph, end: nat, n0: int, n: int, memo: map<set<nat>, int>, frontier: seq<set<nat>>,
                 edges: map<int, map<char, int>>, accept: set<int>, cl: map<set<nat>, set<nat>>, da: set<nat>, row: map<char, int>)
    requires DWork(g, end, n0, n, memo, frontier, edges, accept, cl, {da}) && da in memo
    ensures DWork(g, end, n0, n, memo, frontier, edges[memo[da] := row], accept, cl, {da})
  {
    var edges' := edges[memo[da] := row];
    assert memo[da] in memo.Values;
    assert edges'.Keys == edges.Keys;
    forall S | S in memo && S !in {da} && S !in frontier ensures Done(g, end, memo, edges', accept, cl, S) {
      assert Done(g, end, memo, edges, accept, cl, S);
      assert memo[S] != memo[da];
    }
  }

  /** The transitions of the row built so far: one for each character of
      `edge` outside `todo`. */
  ghost predicate RowPart(memo: map<set<nat>, int>, edge: map<char, set<nat>>, todo: set<char>, row: map<char, int>) {
    && row.Keys == edge.Keys - todo
    && forall ch | ch in edge && ch !in todo :: edge[ch] in memo && row[ch] == memo[edge[ch]]
  }

  /** One move of the row being drawn: from the state of the current set to
      the state of its target set on `k`. */
  method DrawOne(ctr: Dfa.Counter, ghost g: Graph, ghost end: nat, ghost n0: int, ghost cl: map<set<nat>, set<nat>>,
                 ghost da: set<nat>, us: int, edge: map<char, set<nat>>, todo: set<char>, k: char, ghost accept: set<int>,
                 memo0: map<set<nat>, int>, frontier0: seq<set<nat>>, edges0: map<int, map<char, int>>)
    returns (memo: map<set<nat>, int>, frontier: seq<set<nat>>, edges: map<int, map<char, int>>)
    requires DWork(g, end, n0, ctr.n, memo0, frontier0, edges0, accept, cl, {da}) && da in memo0 && memo0[da] == us
    requires k in todo && todo <= edge.Keys && RowPart(memo0, edge, todo, edges0[us])
    requires forall ch, x | ch in edge && x in edge[ch] :: x < |g.d|
    modifies ctr
    ensures DWork(g, end, n0, ctr.n, memo, frontier, edges, accept, cl, {da}) && da in memo && memo[da] == us
    ensures RowPart(memo, edge, todo - {k}, edges[us])
    ensures Extends(memo0, memo) && Grown(memo0, frontier0, frontier)
  {
    var id;
    ghost var n := ctr.n;
    GrownBy(memo0, frontier0, edge[k]);
    if edge[k] in memo0 {
      DrawKnown(g, end, n0, n, cl, da, us, edge, todo, k, accept, memo0, frontier0, edges0);
    } else {
      DrawNew(g, end, n0, n, cl, da, us, edge, todo, k, accept, memo0, frontier0, edges0);
    }
    id, memo, frontier, edges := JoinGet(ctr, memo0, frontier0, edges0, edge[k]);
    edges := edges[us := edges[us][k := id]];
  }

  /** What `DrawOne` keeps when the target set is known. */
  lemma DrawKnown(g: Graph, end: nat, n0: int, n: int, cl: map<set<nat>, set<nat>>,
                  da: set<nat>, us: int, edge: map<char, set<nat>>, todo: set<char>, k: char, accept: set<int>,
                  memo: map<set<nat>, int>, frontier: seq<set<nat>>, edges: map<int, map<char, int>>)
    requires DWork(g, end, n0, n, memo, frontier, edges, accept, cl, {da}) && da in memo && memo[da] == us
    requires k in todo && todo <= edge.Keys && RowPart(memo, edge, todo, edges[us]) && edge[k] in memo
    ensures DWork(g, end, n0, n, memo, frontier, edges[us := edges[us][k := memo[edge[k]]]], accept, cl, {da})
    ensures RowPart(memo, edge, todo - {k}, edges[us][k := memo[edge[k]]])
  {
    DWorkRow(g, end, n0, n, memo, frontier, edges, accept, cl, da, edges[us][k := memo[edge[k]]]);
    RowPartStep(memo, memo, edge, todo, k, edges[us], memo[edge[k]]);
  }

  /** What `DrawOne` keeps when the target set is new and gets the id `n`. */
  lemma DrawNew(g: Graph, end: nat, n0: int, n: int, cl: map<set<nat>, set<nat>>,
                da: set<nat>, us: int, edge: map<char, set<nat>>, todo: set<char>, k: char, accept: set<int>,
                memo: map<set<nat>, int>, frontier: seq<set<nat>>, edges: map<int, map<char, int>>)
    requires DWork(g, end, n0, n, memo, frontier, edges, accept, cl, {da}) && da in memo && memo[da] == us
    requires k in todo && todo <= edge.Keys && RowPart(memo, edge, todo, edges[us]) && edge[k] !in memo
    requires forall x | x in edge[k] :: x < |g.d|
    ensures var memo', edges' := memo[edge[k] := n], edges[n := map[]];
      && DWork(g, end, n0, n + 1, memo', frontier + [edge[k]], edges'[us := edges'[us][k := n]], accept, cl, {da})
      && edges'[us] == edges[us]
      && RowPart(memo', edge, todo - {k}, edges[us][k := n])
  {
    var memo', edges' := memo[edge[k] := n], edges[n := map[]];
    DWorkNew(g, end, n0, n, memo, frontier, edges, accept, cl, {da}, edge[k]);
    assert edges'[us] == edges[us] by {
      assert us in memo.Values;
    }
    DWorkRow(g, end, n0, n + 1, memo', frontier + [edge[k]], edges', accept, cl, da, edges[us][k := n]);
    RowPartStep(memo, memo', edge, todo, k, edges[us], n);
  }

  lemma RowPartStep(memo0: map<set<nat>, int>, memo: map<set<nat>, int>, edge: map<char, set<nat>>, todo: set<char>,
                    k: char, row: map<char, int>, id: int)
    requires RowPart(memo0, edge, todo, row) && Extends(memo0, memo)
    requires k in todo && todo <= edge.Keys && edge[k] in memo && memo[edge[k]] == id
    ensures RowPart(memo, edge, todo - {k}, row[k := id])
  {
  }

  /** The row loop of `toDfaRev`: a transition from `us` on each character of
      `edge` to the state of its target set, creating the states not met before. */
  method DrawRow(ctr: Dfa.Counter, ghost g: Graph, ghost end: nat, ghost n0: int, ghost cl: map<set<nat>, set<nat>>,
                 ghost da: set<nat>, us: int, edge: map<char, set<nat>>, ghost accept: set<int>,
                 memo0: map<set<nat>, int>, frontier0: seq<set<nat>>, edges0: map<int, map<char, int>>)
    returns (memo: map<set<nat>, int>, frontier: seq<set<nat>>, edges: map<int, map<char, int>>)
    requires DWork(g, end, n0, ctr.n, memo0, frontier0, edges0, accept, cl, {da}) && da in memo0 && memo0[da] == us
    requires edges0[us] == map[] && forall ch, x | ch in edge && x in edge[ch] :: x < |g.d|
    modifies ctr
    ensures DWork(g, end, n0, ctr.n, memo, frontier, edges, accept, cl, {da}) && da in memo && memo[da] == us
    ensures RowIs(memo, edge, edges[us])
    ensures Extends(memo0, memo) && Grown(memo0, frontier0, frontier)
  {
    memo, frontier, edges := memo0, frontier0, edges0;
    var todo := edge.Keys;
    while todo != {}
      invariant DWork(g, end, n0, ctr.n, memo, frontier, edges, accept, cl, {da}) && da in memo && memo[da] == us
      invariant todo <= edge.Keys && RowPart(memo, edge, todo, edges[us])
      invariant Extends(memo0, memo) && Grown(memo0, frontier0, frontier)
      decreases |todo|
    {
      var k :| k in todo;
      ghost var memo1, frontier1 := memo, frontier;
      memo, frontier, edges := DrawOne(ctr, g, end, n0, cl, da, us, edge, todo, k, accept, memo, frontier, edges);
      GrownTrans(memo0, memo1, frontier0, frontier1, frontier);
      todo := todo - {k};
    }
  }

  lemma GraphOfArena(arena: Arena)
    requires arena.Valid()
    ensures GraphOk(Graph(arena.back, arena.trans)) && |arena.back| == |arena.forward|
  {
  }

  /** The far ends of the moves of any set are nodes of the graph. */
  lemma MovesInside(g: Graph, c: set<nat>)
    requires GraphOk(g)
    ensures forall ch, x | ch in Moves(g, c) && x in Moves(g, c)[ch] :: x < |g.d|
  {
  }

  /** Popping the last set of the frontier makes it the one being worked on. */
  lemma DPop(g: Graph, end: nat, n0: int, n: int, memo: map<set<nat>, int>, frontier: seq<set<nat>>,
             edges: map<int, map<char, int>>, accept: set<int>, cl: map<set<nat>, set<nat>>)
    requires DWork(g, end, n0, n, memo, frontier, edges, accept, cl, {}) && |frontier| > 0
    ensures var da := frontier[|frontier| - 1];
      && da in memo && memo[da] in edges && edges[memo[da]] == map[] && memo[da] !in accept
      && (forall x | x in da :: x < |g.d|)
      && DWork(g, end, n0, n, memo, frontier[..|frontier| - 1], edges, accept, cl, {da})
  {
    var da, rest := frontier[|frontier| - 1], frontier[..|frontier| - 1];
    WaitingPop(memo, frontier, edges, accept);
    assert frontier == rest + [da];
  }

  /** Popping the frontier: the popped set is waiting, and the rest still is. */
  lemma WaitingPop(memo: map<set<nat>, int>, frontier: seq<set<nat>>, edges: map<int, map<char, int>>, accept: set<int>)
    requires Waiting(memo, frontier, edges, accept, {}) && |frontier| > 0
    ensures var da := frontier[|frontier| - 1];
      && da in memo && memo[da] in edges && edges[memo[da]] == map[] && memo[da] !in accept
      && Waiting(memo, frontier[..|frontier| - 1], edges, accept, {da})
  {
    var da, rest := frontier[|frontier| - 1], frontier[..|frontier| - 1];
    assert forall i | 0 <= i < |rest| :: rest[i] == frontier[i] && frontier[i] != da;
  }

  /** Marking the state being worked on accepting keeps the invariant. */
  lemma DWorkAccept(g: Graph, end: nat, n0: int, n: int, memo: map<set<nat>, int>, frontier: seq<set<nat>>,
                    edges: map<int, map<char, int>>, accept: set<int>, cl: map<set<nat>, set<nat>>, da: set<nat>, more: set<int>)
    requires DWork(g, end, n0, n, memo, frontier, edges, accept, cl, {da}) && da in memo && more <= {memo[da]}
    ensures DWork(g, end, n0, n, memo, frontier, edges, accept + more, cl, {da})
  {
    assert memo[da] in memo.Values;
    forall i | 0 <= i < |frontier| ensures memo[frontier[i]] != memo[da] {
      assert frontier[i] != da;
    }
    forall S | S in memo && S !in {da} && S !in frontier ensures Done(g, end, memo, edges, accept + more, cl, S) {
      assert Done(g, end, memo, edges, accept, cl, S);
      assert memo[S] != memo[da];
    }
  }

  /** Recording the closure of the finished set completes it. */
  lemma DFinish(g: Graph, end: nat, n0: int, n: int, memo: map<set<nat>, int>, frontier: seq<set<nat>>,
                edges: map<int, map<char, int>>, accept: set<int>, cl: map<set<nat>, set<nat>>, da: set<nat>, c: set<nat>)
    requires DWork(g, end, n0, n, memo, frontier, edges, accept, cl, {da}) && da in memo
    requires IsClosure(g, da, c) && RowIs(memo, Moves(g, c), edges[memo[da]])
    requires memo[da] in accept <==> end in c
    ensures DWork(g, end, n0, n, memo, frontier, edges, accept, cl[da := c], {})
  {
    assert memo[da] in memo.Values;
    assert Done(g, end, memo, edges, accept, cl[da := c], da);
    forall S | S in memo && S !in frontier ensures Done(g, end, memo, edges, accept, cl[da := c], S) {
      if S != da {
        DoneVia(g, end, memo, edges, accept, cl, cl[da := c], S);
      }
    }
    assert Waiting(memo, frontier, edges, accept, {});
  }

  lemma DoneVia(g: Graph, end: nat, memo: map<set<nat>, int>, edges: map<int, map<char, int>>, accept: set<int>,
                cl: map<set<nat>, set<nat>>, cl': map<set<nat>, set<nat>>, S: set<nat>)
    requires GraphOk(g) && S in memo && memo[S] in edges && Done(g, end, memo, edges, accept, cl, S)
    requires S in cl' && cl'[S] == cl[S]
    ensures Done(g, end, memo, edges, accept, cl', S)
  {
  }

  /** When the frontier is empty every state is complete. */
  lemma DWorkDone(g: Graph, begin: nat, end: nat, n0: int, n: int, d: Dfa.Dfa,
                  memo: map<set<nat>, int>, cl: map<set<nat>, set<nat>>)
    requires DWork(g, end, n0, n, memo, [], d.edges, d.accept, cl, {})
    requires {begin} in memo && d.initial == memo[{begin}]
    ensures SubsetDfa(g, begin, end, n0, n, d, memo, cl)
  {
  }

  /** One iteration of the worklist loop of `toDfaRev`: pop a set, scan its
      closure, and draw its row. */
  method DfaStep(arena: Arena, ctr: Dfa.Counter, ghost g: Graph, end: nat, ghost n0: int, ghost cl0: map<set<nat>, set<nat>>,
                 memo0: map<set<nat>, int>, frontier0: seq<set<nat>>, edges0: map<int, map<char, int>>, accept0: set<int>)
    returns (memo: map<set<nat>, int>, frontier: seq<set<nat>>, edges: map<int, map<char, int>>, accept: set<int>,
             ghost cl: map<set<nat>, set<nat>>)
    requires arena.Valid() && g == Graph(arena.back, arena.trans)
    requires DWork(g, end, n0, ctr.n, memo0, frontier0, edges0, accept0, cl0, {}) && |frontier0| > 0
    modifies ctr
    ensures DWork(g, end, n0, ctr.n, memo, frontier, edges, accept, cl, {})
    ensures Extends(memo0, memo) && (memo.Keys == memo0.Keys ==> |frontier| < |frontier0|)
  {
    DPop(g, end, n0, ctr.n, memo0, frontier0, edges0, accept0, cl0);
    var da := frontier0[|frontier0| - 1];
    frontier := frontier0[..|frontier0| - 1];
    // `joinGet(s, da)` of a known set is its state.
    var us := memo0[da];
    var edge;
    ghost var c;
    edge, accept, c := CloseSet(arena, g, da, us, end, accept0);
    DWorkAccept(g, end, n0, ctr.n, memo0, frontier, edges0, accept0, cl0, da, if end in c then {us} else {});
    MovesInside(g, c);
    memo, frontier, edges := DrawRow(ctr, g, end, n0, cl0, da, us, edge, accept, memo0, frontier, edges0);
    DFinish(g, end, n0, ctr.n, memo, frontier, edges, accept, cl0, da, c);
    cl := cl0[da := c];
    if |frontier| > |frontier0| - 1 {
      assert frontier[|frontier| - 1] in memo && frontier[|frontier| - 1] !in memo0;
    }
  }

  /** The sets a pass can meet: the sets of nodes of the graph. */
  ghost function NodeSets(n: nat): set<set<nat>> {
    set S | S <= IdsBelow(n)
  }

  lemma MemoInNodeSets(g: Graph, end: nat, n0: int, n: int, memo: map<set<nat>, int>, frontier: seq<set<nat>>,
                       edges: map<int, map<char, int>>, accept: set<int>, cl: map<set<nat>, set<nat>>)
    requires DWork(g, end, n0, n, memo, frontier, edges, accept, cl, {})
    ensures memo.Keys <= NodeSets(|g.d|)
  {
    forall S | S in memo ensures S in NodeSets(|g.d|) {
      assert S <= IdsBelow(|g.d|);
    }
  }

  /** The acceptor `toDfaRev` builds for the graph `g`, with `memo` naming the
      state of each set of nodes met and `cl` its closure: every state is
      complete, and the initial one is the state of `{begin}`. */
  ghost predicate SubsetDfa(g: Graph, begin: nat, end: nat, n0: int, n: int, d: Dfa.Dfa,
                            memo: map<set<nat>, int>, cl: map<set<nat>, set<nat>>) {
    && GraphOk(g)
    && {begin} in memo && d.initial == memo[{begin}]
    && IdsOk(n0, n, memo, d.edges, d.accept)
    && (forall S, x | S in memo && x in S :: x < |g.d|)
    && forall S | S in memo :: Done(g, end, memo, d.edges, d.accept, cl, S)
  }

  lemma SubsetDfaValid(g: Graph, begin: nat, end: nat, n0: int, n: int, d: Dfa.Dfa,
                       memo: map<set<nat>, int>, cl: map<set<nat>, set<nat>>)
    requires SubsetDfa(g, begin, end, n0, n, d, memo, cl)
    ensures Dfa.Valid(d) && Dfa.Below(d, n) && Dfa.Above(d, n0)
  {
    assert memo[{begin}] in memo.Values;
    forall k, c | k in d.edges && c in d.edges[k] ensures d.edges[k][c] in d.edges {
      var S :| S in memo && memo[S] == k;
      assert Done(g, end, memo, d.edges, d.accept, cl, S);
      assert d.edges[k][c] in memo.Values;
    }
    forall k | k in d.edges ensures n0 <= k < n {
      var S :| S in memo && memo[S] == k;
    }
  }

  /** One iteration of `toDfaRev`'s loop, keeping the initial set's state
      and lowering the loop's measure: fewer undiscovered sets, or as many
      and a shorter frontier. */
  method DfaRound(arena: Arena, ctr: Dfa.Counter, ghost g: Graph, end: nat, ghost n0: int, ghost cl0: map<set<nat>, set<nat>>,
                  memo0: map<set<nat>, int>, frontier0: seq<set<nat>>, edges0: map<int, map<char, int>>, accept0: set<int>,
                  ghost init: set<nat>, ghost initial: int)
    returns (memo: map<set<nat>, int>, frontier: seq<set<nat>>, edges: map<int, map<char, int>>, accept: set<int>,
             ghost cl: map<set<nat>, set<nat>>)
    requires arena.Valid() && g == Graph(arena.back, arena.trans)
    requires DWork(g, end, n0, ctr.n, memo0, frontier0, edges0, accept0, cl0, {}) && |frontier0| > 0
    requires init in memo0 && memo0[init] == initial
    modifies ctr
    ensures DWork(g, end, n0, ctr.n, memo, frontier, edges, accept, cl, {})
    ensures init in memo && memo[init] == initial
    ensures var u := NodeSets(|g.d|);
      || |u - memo.Keys| < |u - memo0.Keys|
      || (|u - memo.Keys| == |u - memo0.Keys| && |frontier| < |frontier0|)
  {
    MemoInNodeSets(g, end, n0, ctr.n, memo0, frontier0, edges0, accept0, cl0);
    memo, frontier, edges, accept, cl := DfaStep(arena, ctr, g, end, n0, cl0, memo0, frontier0, edges0, accept0);
    MemoInNodeSets(g, end, n0, ctr.n, memo, frontier, edges, accept, cl);
    SubsetMeasure(NodeSets(|g.d|), memo0.Keys, memo.Keys);
  }

  /** `toDfaRev`: the subset construction over the reversed moves of `nfa`,
      starting from `{nfa.end}`, with the acceptors accepting exactly the
      sets whose closure holds `nfa.start`. Its states are fresh ids of the
      process-wide counter. */
  method ToDfaRev(arena: Arena, nfa: Frag, ctr: Dfa.Counter)
    returns (d: Dfa.Dfa, ghost memo: map<set<nat>, int>, ghost cl: map<set<nat>, set<nat>>)
    requires arena.Valid() && nfa.start < |arena.forward| && nfa.end < |arena.forward|
    modifies ctr
    ensures old(ctr.n) <= ctr.n
    ensures SubsetDfa(Graph(arena.back, arena.trans), Begin(nfa, true), Final(nfa, true), old(ctr.n), ctr.n, d, memo, cl)
    ensures Dfa.Valid(d) && Dfa.Below(d, ctr.n) && Dfa.Above(d, old(ctr.n))
  {
    ghost var g := Graph(arena.back, arena.trans);
    GraphOfArena(arena);
    ghost var n0 := ctr.n;
    var states: map<set<nat>, int> := map[];
    cl := map[];
    var frontier: seq<set<nat>> := [];
    var edges: map<int, map<char, int>> := map[];
    var accept: set<int> := {};
    var initial;
    DWorkNew(g, Final(nfa, true), n0, ctr.n, states, frontier, edges, accept, cl, {}, {Begin(nfa, true)});
    initial, states, frontier, edges := JoinGet(ctr, states, frontier, edges, {Begin(nfa, true)});
    var end := Final(nfa, true);
    ghost var universe := NodeSets(|g.d|);
    while |frontier| > 0
      invariant DWork(g, end, n0, ctr.n, states, frontier, edges, accept, cl, {})
      invariant {Begin(nfa, true)} in states && initial == states[{Begin(nfa, true)}]
      decreases |universe - states.Keys|, |frontier|
    {
      states, frontier, edges, accept, cl := DfaRound(arena, ctr, g, end, n0, cl, states, frontier, edges, accept,
                                                      {Begin(nfa, true)}, initial);
    }
    d, memo := Dfa.Dfa(initial, accept, edges), states;
    DWorkDone(g, Begin(nfa, true), end, n0, ctr.n, d, memo, cl);
    SubsetDfaValid(g, Begin(nfa, true), end, n0, ctr.n, d, memo, cl);
  }

  /** The language of the subset automaton, defined on sets of nodes: the
      closure of `S` holds `end` when `w` is empty, and otherwise has moves
      on `w[0]` whose target set accepts the rest. */
  ghost predicate RevAccepts(g: Graph, S: set<nat>, w: seq<char>, end: nat)
    requires GraphOk(g)
    decreases |w|
  {
    exists c :: IsClosure(g, S, c) &&
      if |w| == 0 then end in c
      else w[0] in Moves(g, c) && RevAccepts(g, Moves(g, c)[w[0]], w[1..], end)
  }

  /** From the state of any set met, the acceptor accepts exactly the words
      the subset automaton accepts from that set. */
  lemma {:induction false} SubsetWalk(g: Graph, begin: nat, end: nat, n0: int, n: int, d: Dfa.Dfa,
                                      memo: map<set<nat>, int>, cl: map<set<nat>, set<nat>>, S: set<nat>, w: seq<char>)
    requires SubsetDfa(g, begin, end, n0, n, d, memo, cl) && S in memo
    ensures (Dfa.Walk(d.edges, memo[S], w).Some? && Dfa.Walk(d.edges, memo[S], w).value in d.accept) <==> RevAccepts(g, S, w, end)
    decreases |w|
  {
    assert memo[S] in memo.Values;
    assert Done(g, end, memo, d.edges, d.accept, cl, S);
    var c := cl[S];
    forall c' | IsClosure(g, S, c') ensures c' == c {
      ClosureUnique(g, S, c, c');
    }
    if |w| > 0 && w[0] in Moves(g, c) {
      var T := Moves(g, c)[w[0]];
      SubsetWalk(g, begin, end, n0, n, d, memo, cl, T, w[1..]);
      assert T in memo;
    }
  }

  /** `toDfaRev`'s acceptor accepts `w` exactly when the subset automaton
      accepts it from `{begin}`. */
  lemma SubsetAccepts(g: Graph, begin: nat, end: nat, n0: int, n: int, d: Dfa.Dfa,
                      memo: map<set<nat>, int>, cl: map<set<nat>, set<nat>>, w: seq<char>)
    requires SubsetDfa(g, begin, end, n0, n, d, memo, cl)
    ensures Dfa.Accepts(d, w) <==> RevAccepts(g, {begin}, w, end)
  {
    SubsetWalk(g, begin, end, n0, n, d, memo, cl, {begin}, w);
  }
}
