/** The regex compiler of `diff.js`: `toNfa`, a structural recursion over the
    syntax tree that builds a Thompson NFA in the arena, `compile`, the chain
    of passes that turns it into a DFA, and `compileFor`, which samples the
    alphabet first and rejects patterns that can match nothing.

    `toNfa` compiles the body of each lookaround by calling `compile`, and
    `^`, `$` and `\b` by compiling their expansions, so the two are mutually
    recursive; the recursion is bounded by the nesting depth of assertions
    (`RegexAst.AssertionDepth`). All automata share one arena and one DFA
    state counter, as the JS code shares its global counters `id` and `n`. */
module Compiler {
  import opened Base
  import opened RegexAst
  import opened Nfa
  import Dfa
  import Product
  import Subset
  import Rebuild
  import Alphabet

  /** The first construct of `e` the builder rejects, in the order it visits
      nodes, with the message of the `SyntaxError` it throws; `None` when `e`
      compiles. */
  function Problem(e: Node): Option<string> {
    match e
    case Char(_) => None
    case CharacterClass(_) => None
    case Group(x) => OptProblem(x)
    case Alternative(xs) => FirstSome(seq(|xs|, i requires 0 <= i < |xs| => Problem(xs[i])))
    case Disjunction(l, r) => if OptProblem(l).Some? then OptProblem(l) else OptProblem(r)
    case Repetition(x, _) => Problem(x)
    case Assertion(k, _, a) =>
      (match k
       case NonWordBoundary => Some("Unsupported assertion: \\B")
       case Lookahead => OptProblem(a)
       case Lookbehind => OptProblem(a)
       case _ => None)
    case Backreference => Some("backreferences are not supported")
  }

  function OptProblem(e: Option<Node>): Option<string> {
    if e.Some? then Problem(e.value) else None
  }

  /** The first present entry of `ps`. */
  function FirstSome(ps: seq<Option<string>>): (r: Option<string>)
    ensures r.None? <==> forall i | 0 <= i < |ps| :: ps[i].None?
  {
    if |ps| == 0 then None
    else if ps[0].Some? then ps[0]
    else
      assert forall i | 1 <= i < |ps| :: ps[i] == ps[1..][i - 1];
      FirstSome(ps[1..])
  }

  lemma {:induction false} FirstSomeAt(ps: seq<Option<string>>, i: nat)
    requires i < |ps| && ps[i].Some? && forall j | 0 <= j < i :: ps[j].None?
    ensures FirstSome(ps) == ps[i]
    decreases i
  {
    if i > 0 {
      assert forall j | 0 <= j < i - 1 :: ps[1..][j] == ps[j + 1];
      FirstSomeAt(ps[1..], i - 1);
    }
  }

  /** The expansions of `^`, `$` and `\b` and the `.*` filler compile. */
  lemma ExpansionsCompile()
    ensures Problem(StartExpansion()) == None && Problem(EndExpansion()) == None
    ensures Problem(BoundaryExpansion()) == None && Problem(DotStar()) == None
  {
    DotStarCompiles();
    var s, e := StartExpansion(), EndExpansion();
    var behind := (x: Node) => Assertion(Lookbehind, false, Some(Disjunction(Some(x), Some(s))));
    var ahead := (x: Node) => Assertion(Lookahead, false, Some(Disjunction(Some(x), Some(e))));
    var a1, a2 := [behind(Word()), ahead(NonWord())], [behind(NonWord()), ahead(Word())];
    assert Problem(a1[0]) == None && Problem(a1[1]) == None;
    assert Problem(a2[0]) == None && Problem(a2[1]) == None;
    assert Problem(Alternative(a1)) == None;
    assert Problem(Alternative(a2)) == None;
  }

  /** The filler `.*(.*).*` compiles. */
  lemma DotStarCompiles()
    ensures Problem(DotStar()) == None
  {
    var r := Repetition(Dot(), Star);
    var xs := [r, Group(Some(r)), r];
    assert seq(|xs|, i requires 0 <= i < |xs| => Problem(xs[i])) == [None, None, None];
  }

  /** A lookaround body padded with `.*` fails exactly where the body does. */
  lemma PaddedProblem(c: Node)
    ensures Problem(Alternative([c, DotStar()])) == Problem(c)
    ensures Problem(Alternative([DotStar(), c])) == Problem(c)
  {
    DotStarCompiles();
    var xs, ys := [c, DotStar()], [DotStar(), c];
    var px := seq(|xs|, i requires 0 <= i < |xs| => Problem(xs[i]));
    var py := seq(|ys|, i requires 0 <= i < |ys| => Problem(ys[i]));
    assert px == [Problem(c), None] && py == [None, Problem(c)];
    if Problem(c).Some? {
      FirstSomeAt(px, 0);
      FirstSomeAt(py, 1);
    }
  }

  /** The assertions of the arena are valid acceptors, each pair of them
      either the same acceptor or with disjoint ids, all below `n`. */
  ghost predicate LooksReady(looks: set<Look>, n: int) {
    && Coherent(looks)
    && forall l | l in looks :: Dfa.Below(l.body, n)
  }

  /** What every builder call keeps. */
  ghost predicate Ready(arena: Arena, ctr: Dfa.Counter)
    reads arena, ctr
  {
    arena.Valid() && LooksReady(Looks(arena.trans), ctr.n)
  }

  lemma LooksReadyLater(looks: set<Look>, n: int, n': int)
    requires LooksReady(looks, n) && n <= n'
    ensures LooksReady(looks, n')
  {
  }

  /** A new assertion whose body was numbered after every body already
      present keeps the assertions coherent. */
  lemma LooksReadyAdd(looks: set<Look>, n0: int, n: int, l: Look)
    requires LooksReady(looks, n0) && n0 <= n
    requires Dfa.Valid(l.body) && Dfa.Above(l.body, n0) && Dfa.Below(l.body, n)
    ensures LooksReady(looks + {l}, n)
  {
    forall l1, l2 | l1 in looks + {l} && l2 in looks + {l}
      ensures l1.body == l2.body || l1.body.edges.Keys !! l2.body.edges.Keys
    {
      if l1.body != l2.body && (l1 == l || l2 == l) {
        var other := if l1 == l then l2 else l1;
        assert other in looks;
        forall k | k in other.body.edges ensures k !in l.body.edges {
          assert k < n0;
        }
      }
    }
  }

  /** The old nodes keep their lists while new ones are added. */
  ghost predicate Framed(f0: seq<seq<nat>>, b0: seq<seq<nat>>, f: seq<seq<nat>>, b: seq<seq<nat>>) {
    |f| >= |f0| && |b| >= |b0| && f[..|f0|] == f0 && b[..|b0|] == b0
  }

  lemma FramedTrans(f0: seq<seq<nat>>, b0: seq<seq<nat>>, f1: seq<seq<nat>>, b1: seq<seq<nat>>,
                    f2: seq<seq<nat>>, b2: seq<seq<nat>>)
    requires Framed(f0, b0, f1, b1) && Framed(f1, b1, f2, b2)
    ensures Framed(f0, b0, f2, b2)
  {
    assert f2[..|f0|] == f2[..|f1|][..|f0|];
    assert b2[..|b0|] == b2[..|b1|][..|b0|];
  }

  /** A fragment built from nodes numbered `lo` or more: two distinct nodes,
      and the end has no moves of its own, so `nfaAppend`, which replaces the
      end's list, loses nothing. */
  ghost predicate IsFrag(f: seq<seq<nat>>, lo: nat, r: Frag) {
    lo <= r.start < |f| && lo <= r.end < |f| && r.start != r.end && f[r.end] == []
  }

  lemma FragKept(f: seq<seq<nat>>, lo: nat, r: Frag, f': seq<seq<nat>>)
    requires IsFrag(f, lo, r) && |f'| >= |f| && f'[..|f|] == f
    ensures IsFrag(f', lo, r)
  {
    assert f'[r.end] == f'[..|f|][r.end];
  }

  /** The list of node `x` with record `i` appended. */
  function AddTo(l: seq<seq<nat>>, x: nat, i: nat): seq<seq<nat>>
    requires x < |l|
  {
    l[x := l[x] + [i]]
  }

  lemma AddToLast(l: seq<seq<nat>>, last: seq<nat>, i: nat)
    ensures AddTo(l + [last], |l|, i) == l + [last + [i]]
  {
  }

  /** One unlabelled move from `x` to `y`, both numbered `lo`
      or more, so the nodes below `lo` keep their lists. */
  method Eps(arena: Arena, ghost ctr: Dfa.Counter, ghost lo: nat, x: nat, y: nat)
    requires Ready(arena, ctr) && lo <= x < |arena.forward| && lo <= y < |arena.forward|
    modifies arena
    ensures Ready(arena, ctr) && Framed(old(arena.forward[..lo]), old(arena.back[..lo]), arena.forward, arena.back)
    ensures arena.trans == old(arena.trans) + [Transition(None, None, x, y)]
    ensures arena.forward == AddTo(old(arena.forward), x, old(|arena.trans|))
    ensures arena.back == AddTo(old(arena.back), y, old(|arena.trans|))
  {
    ghost var t0 := arena.trans;
    arena.Edge(x, y, None, None, false);
    LooksAppend(t0, Transition(None, None, x, y));
    PrefixAfterUpdate(old(arena.forward), x, old(arena.forward)[x] + [|t0|], lo);
    PrefixAfterUpdate(old(arena.back), y, old(arena.back)[y] + [|t0|], lo);
  }

  /** A new node with unlabelled moves into `x` and then `y`. */
  method Spread(arena: Arena, ghost ctr: Dfa.Counter, ghost lo: nat, x: nat, y: nat) returns (n: nat)
    requires Ready(arena, ctr) && lo <= x < |arena.forward| && lo <= y < |arena.forward|
    modifies arena
    ensures Ready(arena, ctr) && Framed(old(arena.forward[..lo]), old(arena.back[..lo]), arena.forward, arena.back)
    ensures var k := old(|arena.trans|);
      && n == old(|arena.forward|)
      && arena.trans == old(arena.trans) + [Transition(None, None, n, x), Transition(None, None, n, y)]
      && arena.forward == old(arena.forward) + [[k, k + 1]]
      && arena.back == AddTo(AddTo(old(arena.back), x, k), y, k + 1) + [[]]
  {
    ghost var f0, b0 := arena.forward[..lo], arena.back[..lo];
    ghost var fI, bI, k := arena.forward, arena.back, |arena.trans|;
    n := arena.Empty();
    assert arena.forward[..lo] == f0 && arena.back[..lo] == b0;
    Eps(arena, ctr, lo, n, x);
    Eps(arena, ctr, lo, n, y);
    TwoMoves(fI, bI, x, y, k);
  }

  /** A new node with unlabelled moves from `x` and then `y`. */
  method Gather(arena: Arena, ghost ctr: Dfa.Counter, ghost lo: nat, x: nat, y: nat) returns (n: nat)
    requires Ready(arena, ctr) && lo <= x < |arena.forward| && lo <= y < |arena.forward|
    modifies arena
    ensures Ready(arena, ctr) && Framed(old(arena.forward[..lo]), old(arena.back[..lo]), arena.forward, arena.back)
    ensures var k := old(|arena.trans|);
      && n == old(|arena.forward|)
      && arena.trans == old(arena.trans) + [Transition(None, None, x, n), Transition(None, None, y, n)]
      && arena.forward == AddTo(AddTo(old(arena.forward), x, k), y, k + 1) + [[]]
      && arena.back == old(arena.back) + [[k, k + 1]]
  {
    ghost var f0, b0 := arena.forward[..lo], arena.back[..lo];
    ghost var fI, bI, k := arena.forward, arena.back, |arena.trans|;
    n := arena.Empty();
    assert arena.forward[..lo] == f0 && arena.back[..lo] == b0;
    Eps(arena, ctr, lo, x, n);
    Eps(arena, ctr, lo, y, n);
    TwoMoves(bI, fI, x, y, k);
  }

  /** The list arithmetic behind `Spread` and `Gather`: records `k` and
      `k + 1` land on the new node's own list and on the lists of `x`, `y`. */
  lemma TwoMoves(own: seq<seq<nat>>, other: seq<seq<nat>>, x: nat, y: nat, k: nat)
    requires x < |other| && y < |other|
    ensures AddTo(AddTo(own + [[]], |own|, k), |own|, k + 1) == own + [[k, k + 1]]
    ensures AddTo(AddTo(other + [[]], x, k), y, k + 1) == AddTo(AddTo(other, x, k), y, k + 1) + [[]]
  {
    AddToLast(own, [], k);
    assert [] + [k] == [k];
    AddToLast(own, [k], k + 1);
    assert [k] + [k + 1] == [k, k + 1];
  }

  /** The post-visit of a `Disjunction` once both sides have fragments: a new
      start with moves into both, and a new end reached from both ends. */
  method Fork(arena: Arena, ghost ctr: Dfa.Counter, ghost lo: nat, a: Frag, b: Frag) returns (r: Frag)
    requires Ready(arena, ctr) && lo <= |arena.forward| && IsFrag(arena.forward, lo, a) && IsFrag(arena.forward, lo, b)
    modifies arena
    ensures Ready(arena, ctr) && Framed(old(arena.forward[..lo]), old(arena.back[..lo]), arena.forward, arena.back)
    ensures IsFrag(arena.forward, old(|arena.forward|), r) && r == Frag(old(|arena.forward|), old(|arena.forward|) + 1)
    ensures var n, k := old(|arena.forward|), old(|arena.trans|);
      && arena.trans == old(arena.trans) + [Transition(None, None, n, a.start), Transition(None, None, n, b.start),
                                            Transition(None, None, a.end, n + 1), Transition(None, None, b.end, n + 1)]
      && arena.forward == AddTo(AddTo(old(arena.forward) + [[k, k + 1], []], a.end, k + 2), b.end, k + 3)
      && arena.back == AddTo(AddTo(old(arena.back), a.start, k), b.start, k + 1) + [[], [k + 2, k + 3]]
  {
    ghost var f0, b0 := arena.forward[..lo], arena.back[..lo];
    ghost var fI, bI, k := arena.forward, arena.back, |arena.trans|;
    var start := Spread(arena, ctr, lo, a.start, b.start);
    ghost var b1 := arena.back;
    assert arena.forward[..lo] == f0 && arena.back[..lo] == b0;
    var end := Gather(arena, ctr, lo, a.end, b.end);
    r := Frag(start, end);
    assert fI + [[k, k + 1]] + [[]] == fI + [[k, k + 1], []];
    assert b1 + [[k + 2, k + 3]] == AddTo(AddTo(bI, a.start, k), b.start, k + 1) + [[], [k + 2, k + 3]];
  }

  /** `idNfa` under the builder invariant. */
  method Id(arena: Arena, ghost ctr: Dfa.Counter) returns (r: Frag)
    requires Ready(arena, ctr)
    modifies arena
    ensures Ready(arena, ctr) && Framed(old(arena.forward), old(arena.back), arena.forward, arena.back)
    ensures r == Frag(old(|arena.forward|), old(|arena.forward|) + 1) && |arena.forward| == old(|arena.forward|) + 2
    ensures IsFrag(arena.forward, old(|arena.forward|), r)
    ensures arena.trans == old(arena.trans) + [Transition(None, None, r.start, r.end)]
    ensures arena.forward == old(arena.forward) + [[old(|arena.trans|)], []]
    ensures arena.back == old(arena.back) + [[], [old(|arena.trans|)]]
  {
    ghost var t0, f0, b0 := arena.trans, arena.forward, arena.back;
    r := arena.IdNfa();
    LooksAppend(t0, Transition(None, None, r.start, r.end));
    assert arena.forward[..|f0|] == f0 && arena.back[..|b0|] == b0;
  }

  /** `nfaAppend` under the builder invariant. */
  method Join(arena: Arena, ghost ctr: Dfa.Counter, nfa: Frag, other: Frag) returns (r: Frag)
    requires Ready(arena, ctr) && nfa.end < |arena.forward| && other.start < |arena.forward| && other.end < |arena.forward|
    modifies arena
    ensures Ready(arena, ctr) && r == Frag(nfa.start, other.end)
    ensures arena.forward == old(arena.forward)[nfa.end := old(arena.forward)[other.start]] && arena.back == old(arena.back)
    ensures arena.trans == Redirected(old(arena.trans), old(arena.forward)[other.start], nfa.end)
  {
    ghost var t0 := arena.trans;
    r := arena.Append(nfa, other);
    LooksRedirected(t0, old(arena.forward)[other.start], nfa.end);
  }

  /** `nfaClone` under the builder invariant: the copy is a fragment of new nodes. */
  method Copy(arena: Arena, ghost ctr: Dfa.Counter, src: Frag) returns (r: Frag, ghost m: map<nat, nat>)
    requires Ready(arena, ctr) && src.start < |arena.forward| && src.end < |arena.forward|
    requires src.start != src.end && arena.forward[src.end] == []
    modifies arena
    ensures Ready(arena, ctr) && Framed(old(arena.forward), old(arena.back), arena.forward, arena.back)
    ensures IsFrag(arena.forward, old(|arena.forward|), r)
    ensures Fresh(old(|arena.forward|), |arena.forward|, m) && src.start in m && src.end in m
    ensures r == Frag(m[src.start], m[src.end]) && |arena.trans| >= old(|arena.trans|) && arena.trans[..old(|arena.trans|)] == old(arena.trans)
    ensures forall x | x in m :: CopiedRow(old(arena.forward), old(arena.trans), arena.forward, arena.trans, m, x)
  {
    ghost var t0, f0 := arena.trans, arena.forward;
    r, m := arena.Clone(src);
    LooksFromKept(t0, arena.trans);
    forall x | x in m ensures CopiedRow(f0, t0, arena.forward, arena.trans, m, x) {
      if !CopiedRow(f0, t0, arena.forward, arena.trans, m, x) {
        assert x == src.end && arena.forward[m[x]] == [];
        assert f0[x] == [];
      }
    }
    assert arena.forward[r.end] == [] by {
      if CopiedRow(f0, t0, arena.forward, arena.trans, m, src.end) {
        assert |arena.forward[m[src.end]]| == |f0[src.end]|;
      }
    }
  }

  /** `nfaClass` under the builder invariant. */
  method Class(arena: Arena, ghost ctr: Dfa.Counter, t: CharTest, cs: set<char>) returns (r: Frag)
    requires Ready(arena, ctr)
    modifies arena
    ensures Ready(arena, ctr) && Framed(old(arena.forward), old(arena.back), arena.forward, arena.back)
    ensures IsFrag(arena.forward, old(|arena.forward|), r) && r == Frag(old(|arena.forward|), old(|arena.forward|) + 1)
    ensures ClassFrag(old(arena.forward), old(arena.back), old(arena.trans), arena.forward, arena.back, arena.trans,
                      r.start, r.end, set c | c in cs && t.matches(c) :: Some(c))
  {
    ghost var t0 := arena.trans;
    r := arena.NfaClass(t, cs);
    LooksFromKept(t0, arena.trans);
  }

  /** `toNfa`: the fragment of `e`, or the error the builder throws. */
  method ToNfa(arena: Arena, ctr: Dfa.Counter, e: Node, cs: set<char>) returns (r: Result<Frag>)
    requires Ready(arena, ctr)
    modifies arena, ctr
    ensures Ready(arena, ctr) && old(ctr.n) <= ctr.n
    ensures Framed(old(arena.forward), old(arena.back), arena.forward, arena.back)
    ensures r.Err? <==> Problem(e).Some?
    ensures r.Err? ==> r.error == Unsupported(Problem(e).value)
    ensures r.Ok? ==> IsFrag(arena.forward, old(|arena.forward|), r.value)
    ensures (e.Char? || e.CharacterClass?) ==>
              r.Ok? && ClassFrag(old(arena.forward), old(arena.back), old(arena.trans), arena.forward, arena.back, arena.trans,
                                 r.value.start, r.value.end, set c | c in cs && e.test.matches(c) :: Some(c))
    ensures e == Group(None) ==> && r == Ok(Frag(old(|arena.forward|), old(|arena.forward|) + 1))
                                 && arena.trans == old(arena.trans) + [Transition(None, None, r.value.start, r.value.end)]
    decreases AssertionDepth(e), e, 3
  {
    match e
    case Char(t) =>
      var f := Class(arena, ctr, t, cs);
      r := Ok(f);
    case CharacterClass(t) =>
      var f := Class(arena, ctr, t, cs);
      r := Ok(f);
    case Group(x) =>
      var c := SubNfa(arena, ctr, x, cs);
      if c.Err? {
        r := Err(c.error);
      } else {
        var f := OrId(arena, ctr, c.value);
        r := Ok(f);
      }
    case Alternative(xs) =>
      r := AlternativeNfa(arena, ctr, e, cs);
    case Disjunction(_, _) =>
      r := DisjunctionNfa(arena, ctr, e, cs);
    case Repetition(_, _) =>
      r := RepetitionNfa(arena, ctr, e, cs);
    case Assertion(_, _, _) =>
      r := AssertionNfa(arena, ctr, e, cs);
    case Backreference =>
      r := Err(Unsupported("backreferences are not supported"));
  }

  /** The fragment of an optional child, built when the child is present. */
  method SubNfa(arena: Arena, ctr: Dfa.Counter, x: Option<Node>, cs: set<char>) returns (r: Result<Option<Frag>>)
    requires Ready(arena, ctr)
    modifies arena, ctr
    ensures Ready(arena, ctr) && old(ctr.n) <= ctr.n
    ensures Framed(old(arena.forward), old(arena.back), arena.forward, arena.back)
    ensures r.Err? <==> OptProblem(x).Some?
    ensures r.Err? ==> r.error == Unsupported(OptProblem(x).value)
    ensures r.Ok? ==> (r.value.Some? <==> x.Some?)
    ensures r.Ok? && r.value.Some? ==> IsFrag(arena.forward, old(|arena.forward|), r.value.value)
    ensures x.None? ==> r == Ok(None) && arena.forward == old(arena.forward) && arena.trans == old(arena.trans)
    decreases OptDepth(x), x, 1
  {
    if x.None? {
      r := Ok(None);
    } else {
      var c := ToNfa(arena, ctr, x.value, cs);
      r := if c.Err? then Err(c.error) else Ok(Some(c.value));
    }
  }

  /** The number of `idNfa` fragments `OrId` adds for `c`. */
  function Missing(c: Option<Frag>): nat {
    if c.None? then 1 else 0
  }

  /** The fragment of an optional child (diff.js:151, 161-162): the child's own
      when present, or a fresh empty one from `idNfa`. */
  method OrId(arena: Arena, ghost ctr: Dfa.Counter, c: Option<Frag>) returns (r: Frag)
    requires Ready(arena, ctr)
    requires c.Some? ==> c.value.start < |arena.forward| && c.value.end < |arena.forward|
    requires c.Some? ==> c.value.start != c.value.end && arena.forward[c.value.end] == []
    modifies arena
    ensures Ready(arena, ctr) && Framed(old(arena.forward), old(arena.back), arena.forward, arena.back)
    ensures c.Some? ==> r == c.value && arena.forward == old(arena.forward) && arena.back == old(arena.back) && arena.trans == old(arena.trans)
    ensures c.None? ==> IsFrag(arena.forward, old(|arena.forward|), r) && |arena.forward| == old(|arena.forward|) + 2
    ensures c.None? ==> && r == Frag(old(|arena.forward|), old(|arena.forward|) + 1)
                        && arena.trans == old(arena.trans) + [Transition(None, None, r.start, r.end)]
  {
    if c.Some? {
      r := c.value;
      assert arena.forward[..|arena.forward|] == arena.forward && arena.back[..|arena.back|] == arena.back;
    } else {
      r := Id(arena, ctr);
    }
  }

  method AlternativeNfa(arena: Arena, ctr: Dfa.Counter, e: Node, cs: set<char>) returns (r: Result<Frag>)
    requires e.Alternative? && Ready(arena, ctr)
    modifies arena, ctr
    ensures Ready(arena, ctr) && old(ctr.n) <= ctr.n
    ensures Framed(old(arena.forward), old(arena.back), arena.forward, arena.back)
    ensures r.Err? <==> Problem(e).Some?
    ensures r.Err? ==> r.error == Unsupported(Problem(e).value)
    ensures r.Ok? ==> IsFrag(arena.forward, old(|arena.forward|), r.value)
    ensures e.expressions == [] ==> r.Ok? && r.value == Frag(old(|arena.forward|), old(|arena.forward|) + 1)
    decreases AssertionDepth(e), e, 2
  {
    var xs := e.expressions;
    ghost var ps := seq(|xs|, i requires 0 <= i < |xs| => Problem(xs[i]));
    assert Problem(e) == FirstSome(ps);
    ghost var n0, f0, b0, c0 := |arena.forward|, arena.forward, arena.back, ctr.n;
    var frags: seq<Frag> := [];
    ghost var lows: seq<nat> := [n0];
    assert arena.forward[..n0] == f0 && arena.back[..|b0|] == b0;
    var i := 0;
    while i < |xs|
      invariant Ready(arena, ctr) && c0 <= ctr.n && 0 <= i <= |xs|
      invariant AltLoop(xs, i, f0, b0, arena.forward, arena.back, lows, frags)
    {
      var c;
      c, lows, frags := AltChild(arena, ctr, e, i, cs, f0, b0, lows, frags);
      if c.Err? {
        FirstSomeAt(ps, i);
        return c;
      }
      i := i + 1;
    }
    var nfa := JoinAll(arena, ctr, n0, lows, frags);
    FramedTrans(f0, b0, old(arena.forward), old(arena.back), arena.forward, arena.back);
    r := Ok(nfa);
  }

  /** The children of an `Alternative` before the `i`th compile, and their
      fragments lie after the nodes the visit started with. */
  ghost predicate AltLoop(xs: seq<Node>, i: nat, f0: seq<seq<nat>>, b0: seq<seq<nat>>, f: seq<seq<nat>>, b: seq<seq<nat>>,
                          lows: seq<nat>, frags: seq<Frag>) {
    && i <= |xs| && |frags| == i && Framed(f0, b0, f, b)
    && (forall j | 0 <= j < i :: Problem(xs[j]).None?)
    && Kids(f, |f0|, lows, frags)
  }

  /** One step of the pre-visit of an `Alternative`: compile the `i`th child. */
  method AltChild(arena: Arena, ctr: Dfa.Counter, e: Node, i: nat, cs: set<char>, ghost f0: seq<seq<nat>>, ghost b0: seq<seq<nat>>,
                  ghost lows: seq<nat>, frags: seq<Frag>)
    returns (c: Result<Frag>, ghost lows': seq<nat>, frags': seq<Frag>)
    requires e.Alternative? && i < |e.expressions| && Ready(arena, ctr)
    requires AltLoop(e.expressions, i, f0, b0, arena.forward, arena.back, lows, frags)
    modifies arena, ctr
    ensures Ready(arena, ctr) && old(ctr.n) <= ctr.n && Framed(f0, b0, arena.forward, arena.back)
    ensures c.Err? ==> c.error.Unsupported? && Problem(e.expressions[i]) == Some(c.error.message)
    ensures c.Ok? ==> AltLoop(e.expressions, i + 1, f0, b0, arena.forward, arena.back, lows', frags')
    decreases AssertionDepth(e), e, 1
  {
    ChildShallower(e.expressions, i);
    ghost var fB, bB := arena.forward, arena.back;
    c := ToNfa(arena, ctr, e.expressions[i], cs);
    FramedTrans(f0, b0, fB, bB, arena.forward, arena.back);
    lows', frags' := lows, frags;
    if c.Ok? {
      KidsGrow(fB, |f0|, lows, frags, arena.forward, c.value);
      lows', frags' := lows + [|arena.forward|], frags + [c.value];
    }
  }

  /** The fragments of the children of an `Alternative`, built one after
      another: the `j`th lies in `[lows[j], lows[j + 1])`. */
  ghost predicate Kids(f: seq<seq<nat>>, n0: nat, lows: seq<nat>, frags: seq<Frag>) {
    && |lows| == |frags| + 1 && lows[0] == n0 && lows[|frags|] == |f|
    && (forall a, b | 0 <= a <= b <= |frags| :: lows[a] <= lows[b])
    && (forall j | 0 <= j < |frags| ::
          lows[j] <= frags[j].start < lows[j + 1] && lows[j] <= frags[j].end < lows[j + 1] && frags[j].start != frags[j].end)
    && (forall j | 0 <= j < |frags| :: frags[j].start < |f| && frags[j].end < |f| && f[frags[j].end] == [])
  }

  lemma KidsGrow(f: seq<seq<nat>>, n0: nat, lows: seq<nat>, frags: seq<Frag>, f': seq<seq<nat>>, c: Frag)
    requires Kids(f, n0, lows, frags) && |f'| >= |f| && f'[..|f|] == f && IsFrag(f', |f|, c)
    ensures Kids(f', n0, lows + [|f'|], frags + [c])
  {
    var lows', frags' := lows + [|f'|], frags + [c];
    forall j | 0 <= j < |frags'| ensures frags'[j].start < |f'| && frags'[j].end < |f'| && f'[frags'[j].end] == [] {
      if j < |frags| {
        assert f'[..|f|][frags[j].end] == f[frags[j].end];
      }
    }
  }

  /** The node that takes over the start list of the `j`th child of an
      `Alternative`: the fresh fragment's end for the first, the previous
      child's end for the others. */
  function Seam(frags: seq<Frag>, first: nat, j: nat): nat
    requires j < |frags|
  {
    if j == 0 then first else frags[j - 1].end
  }

  /** The lists `g` after the first `k` children are appended: each seam
      takes over its child's start list in `f`. */
  ghost function Linked(g: seq<seq<nat>>, f: seq<seq<nat>>, frags: seq<Frag>, first: nat, k: nat): (r: seq<seq<nat>>)
    requires k <= |frags| && first < |g|
    requires forall j | 0 <= j < |frags| :: frags[j].start < |f| && frags[j].end < |g|
    ensures |r| == |g|
  {
    if k == 0 then g else Linked(g, f, frags, first, k - 1)[Seam(frags, first, k - 1) := f[frags[k - 1].start]]
  }

  /** The records `t` after the first `k` children are appended: the records
      of each child's start list leave from its seam. */
  ghost function Chained(t: seq<Transition>, f: seq<seq<nat>>, frags: seq<Frag>, first: nat, k: nat): (r: seq<Transition>)
    requires k <= |frags| && forall j | 0 <= j < |frags| :: frags[j].start < |f|
    ensures |r| == |t|
  {
    if k == 0 then t else Redirected(Chained(t, f, frags, first, k - 1), f[frags[k - 1].start], Seam(frags, first, k - 1))
  }

  /** The post-visit of an `Alternative`: a fresh empty fragment with each
      child's fragment appended in order. */
  method JoinAll(arena: Arena, ghost ctr: Dfa.Counter, ghost n0: nat, ghost lows: seq<nat>, frags: seq<Frag>)
    returns (nfa: Frag)
    requires Ready(arena, ctr) && |arena.forward| >= n0 && Kids(arena.forward, n0, lows, frags)
    modifies arena
    ensures Ready(arena, ctr) && Framed(old(arena.forward[..n0]), old(arena.back[..n0]), arena.forward, arena.back)
    ensures Framed(old(arena.forward), old(arena.back), arena.forward, arena.back) || |frags| > 0
    ensures IsFrag(arena.forward, n0, nfa) && nfa.start == old(|arena.forward|)
    ensures nfa.end == if |frags| == 0 then old(|arena.forward|) + 1 else frags[|frags| - 1].end
    ensures var first := old(|arena.forward|) + 1;
      && arena.forward == Linked(old(arena.forward) + [[old(|arena.trans|)], []], old(arena.forward), frags, first, |frags|)
      && arena.back == old(arena.back) + [[], [old(|arena.trans|)]]
      && arena.trans == Chained(old(arena.trans) + [Transition(None, None, nfa.start, first)], old(arena.forward), frags, first, |frags|)
      && arena.forward[nfa.start] == [old(|arena.trans|)]
      && forall j | 0 <= j < |frags| :: arena.forward[Seam(frags, first, j)] == old(arena.forward)[frags[j].start]
  {
    ghost var f0, b0 := arena.forward[..n0], arena.back[..n0];
    ghost var F, B, T := arena.forward, arena.back, arena.trans;
    nfa := Id(arena, ctr);
    ghost var s := nfa.start;
    assert arena.forward[..n0] == f0 by {
      assert arena.forward[..n0] == arena.forward[..s][..n0];
    }
    JoinStart(arena.forward, arena.back, arena.trans, F, B, T, n0, lows, frags, nfa);
    var k := 0;
    while k < |frags|
      invariant Ready(arena, ctr) && 0 <= k <= |frags|
      invariant Joining(arena.forward, arena.back, arena.trans, F, B, T, n0, lows, frags, k, nfa)
      invariant arena.forward[..n0] == f0
      invariant k == 0 ==> arena.forward == F + [[|T|], []]
    {
      nfa := JoinStep(arena, ctr, n0, lows, frags, F, B, T, k, nfa);
      k := k + 1;
    }
    JoinEnd(arena.forward, arena.back, arena.trans, F, B, T, n0, lows, frags, nfa);
    assert arena.back[..n0] == B[..n0];
  }

  /** The loop of `JoinAll` starts from `idNfa`'s fragment after the children. */
  lemma JoinStart(f: seq<seq<nat>>, b: seq<seq<nat>>, t: seq<Transition>,
                  F: seq<seq<nat>>, B: seq<seq<nat>>, T: seq<Transition>,
                  n0: nat, lows: seq<nat>, frags: seq<Frag>, nfa: Frag)
    requires Kids(F, n0, lows, frags) && nfa == Frag(|F|, |F| + 1)
    requires f == F + [[|T|], []] && b == B + [[], [|T|]] && t == T + [Transition(None, None, nfa.start, nfa.end)]
    ensures Joining(f, b, t, F, B, T, n0, lows, frags, 0, nfa)
  {
    forall j | 0 <= j < |frags| ensures f[frags[j].end] == [] && f[frags[j].start] == F[frags[j].start] {
      assert f[frags[j].end] == F[frags[j].end];
    }
  }

  /** What the loop of `JoinAll` leaves once every child is appended. */
  lemma JoinEnd(f: seq<seq<nat>>, b: seq<seq<nat>>, t: seq<Transition>,
                F: seq<seq<nat>>, B: seq<seq<nat>>, T: seq<Transition>,
                n0: nat, lows: seq<nat>, frags: seq<Frag>, nfa: Frag)
    requires Joining(f, b, t, F, B, T, n0, lows, frags, |frags|, nfa) && n0 <= |F| && |B| == |F| && f[..n0] == F[..n0]
    ensures Framed(F[..n0], B[..n0], f, b) && (Framed(F, B, f, b) || |frags| > 0)
    ensures IsFrag(f, n0, nfa) && nfa.start == |F|
    ensures nfa.end == if |frags| == 0 then |F| + 1 else frags[|frags| - 1].end
    ensures f == Linked(F + [[|T|], []], F, frags, |F| + 1, |frags|) && b == B + [[], [|T|]]
    ensures t == Chained(T + [Transition(None, None, |F|, |F| + 1)], F, frags, |F| + 1, |frags|)
    ensures f[nfa.start] == [|T|]
    ensures forall j | 0 <= j < |frags| :: f[Seam(frags, |F| + 1, j)] == F[frags[j].start]
  {
    if |frags| == 0 {
      assert f == F + [[|T|], []];
    } else {
      var m := |frags| - 1;
      assert lows[0] <= lows[m] <= frags[m].end;
    }
    assert b[..|B|] == B && b[..n0] == B[..n0];
  }

  /** The state of the loop of `JoinAll` after `k` children: the fresh start
      `|F|` keeps its one record, each seam so far has its child's start
      list, and the records of those lists leave from there. */
  ghost predicate Joining(f: seq<seq<nat>>, b: seq<seq<nat>>, t: seq<Transition>,
                          F: seq<seq<nat>>, B: seq<seq<nat>>, T: seq<Transition>,
                          n0: nat, lows: seq<nat>, frags: seq<Frag>, k: nat, nfa: Frag) {
    && JoinShape(F, n0, lows, frags, k, nfa)
    && JoinLists(f, F, T, frags, k, nfa)
    && JoinRecords(f, b, t, F, B, T, frags, k)
  }

  /** The children and the chain's ends after `k` appends. */
  ghost predicate JoinShape(F: seq<seq<nat>>, n0: nat, lows: seq<nat>, frags: seq<Frag>, k: nat, nfa: Frag) {
    && Kids(F, n0, lows, frags) && k <= |frags|
    && nfa.start == |F| && nfa.end == (if k == 0 then |F| + 1 else frags[k - 1].end)
  }

  /** The lists after `k` appends, node by node. */
  ghost predicate JoinLists(f: seq<seq<nat>>, F: seq<seq<nat>>, T: seq<Transition>, frags: seq<Frag>, k: nat, nfa: Frag) {
    var s := |F|;
    && k <= |frags| && |f| == s + 2 && nfa.end < |f|
    && (forall j | 0 <= j < |frags| :: frags[j].start < s && frags[j].end < s)
    && f[nfa.end] == [] && f[s] == [|T|]
    && (forall j | k <= j < |frags| :: f[frags[j].end] == [] && f[frags[j].start] == F[frags[j].start])
    && (forall j | 0 <= j < k :: f[Seam(frags, s + 1, j)] == F[frags[j].start])
  }

  /** The whole lists and records after `k` appends. */
  ghost predicate JoinRecords(f: seq<seq<nat>>, b: seq<seq<nat>>, t: seq<Transition>,
                              F: seq<seq<nat>>, B: seq<seq<nat>>, T: seq<Transition>, frags: seq<Frag>, k: nat) {
    var s := |F|;
    && k <= |frags| && (forall j | 0 <= j < |frags| :: frags[j].start < s && frags[j].end < s)
    && f == Linked(F + [[|T|], []], F, frags, s + 1, k)
    && b == B + [[], [|T|]]
    && t == Chained(T + [Transition(None, None, s, s + 1)], F, frags, s + 1, k)
  }

  /** One iteration of the loop of `JoinAll`: `nfaAppend` of the `k`th child. */
  method JoinStep(arena: Arena, ghost ctr: Dfa.Counter, ghost n0: nat, ghost lows: seq<nat>, frags: seq<Frag>,
                  ghost F: seq<seq<nat>>, ghost B: seq<seq<nat>>, ghost T: seq<Transition>, k: nat, nfa: Frag)
    returns (nfa': Frag)
    requires Ready(arena, ctr) && k < |frags| && n0 <= |F|
    requires Joining(arena.forward, arena.back, arena.trans, F, B, T, n0, lows, frags, k, nfa)
    modifies arena
    ensures Ready(arena, ctr) && Joining(arena.forward, arena.back, arena.trans, F, B, T, n0, lows, frags, k + 1, nfa')
    ensures arena.forward[..n0] == old(arena.forward[..n0])
  {
    ghost var fB, bB, tB := arena.forward, arena.back, arena.trans;
    JoinSeams(fB, F, n0, lows, frags, k, nfa, |F| + 1);
    nfa' := Join(arena, ctr, nfa, frags[k]);
    PrefixAfterUpdate(fB, nfa.end, fB[frags[k].start], n0);
    JoiningStep(fB, bB, tB, F, B, T, n0, lows, frags, k, nfa);
  }

  /** Before the `k`th append, the end of the chain is the `k`th seam and is
      none of the nodes the later appends read or write. */
  lemma JoinSeams(f: seq<seq<nat>>, F: seq<seq<nat>>, n0: nat, lows: seq<nat>, frags: seq<Frag>, k: nat, nfa: Frag, first: nat)
    requires Kids(F, n0, lows, frags) && k < |frags| && first == |F| + 1
    requires nfa.end == (if k == 0 then first else frags[k - 1].end)
    ensures nfa.end == Seam(frags, first, k) && nfa.end != |F|
    ensures forall j | k <= j < |frags| :: nfa.end != frags[j].end && nfa.end != frags[j].start
    ensures forall j | 0 <= j < k :: Seam(frags, first, j) != nfa.end
    ensures forall j | k < j < |frags| :: frags[k].end != frags[j].start && frags[k].end != frags[j].end
  {
    assert lows[k + 1] <= lows[|frags|];
    forall j | k <= j < |frags| ensures nfa.end != frags[j].end && nfa.end != frags[j].start {
      if k > 0 {
        assert lows[k] <= lows[j];
      }
    }
    forall j | 0 <= j < k ensures Seam(frags, first, j) != nfa.end {
      if j > 0 {
        assert lows[j] <= lows[k - 1];
      }
    }
    forall j | k < j < |frags| ensures frags[k].end != frags[j].start && frags[k].end != frags[j].end {
      assert lows[k + 1] <= lows[j];
    }
  }

  /** The `nfaAppend` of the `k`th child takes the loop of `JoinAll` from
      `k` children to `k + 1`. */
  lemma JoiningStep(f: seq<seq<nat>>, b: seq<seq<nat>>, t: seq<Transition>,
                    F: seq<seq<nat>>, B: seq<seq<nat>>, T: seq<Transition>,
                    n0: nat, lows: seq<nat>, frags: seq<Frag>, k: nat, nfa: Frag)
    requires Joining(f, b, t, F, B, T, n0, lows, frags, k, nfa) && k < |frags|
    ensures var f' := f[nfa.end := f[frags[k].start]];
      Joining(f', b, Redirected(t, f[frags[k].start], nfa.end), F, B, T, n0, lows, frags, k + 1, Frag(nfa.start, frags[k].end))
  {
    JoinSeams(f, F, n0, lows, frags, k, nfa, |F| + 1);
    JoinListsStep(f, F, T, frags, k, nfa, |F| + 1);
    JoinRecordsStep(f, b, t, F, B, T, frags, k, nfa);
  }

  /** The lists after the `k`th append: only the seam's list changes. */
  lemma JoinListsStep(f: seq<seq<nat>>, F: seq<seq<nat>>, T: seq<Transition>, frags: seq<Frag>, k: nat, nfa: Frag, first: nat)
    requires JoinLists(f, F, T, frags, k, nfa) && k < |frags| && nfa.start == |F| && first == |F| + 1
    requires nfa.end == Seam(frags, first, k) && nfa.end != |F|
    requires forall j | k <= j < |frags| :: nfa.end != frags[j].end && nfa.end != frags[j].start
    requires forall j | 0 <= j < k :: Seam(frags, first, j) != nfa.end
    requires forall j | k < j < |frags| :: frags[k].end != frags[j].start && frags[k].end != frags[j].end
    ensures JoinLists(f[nfa.end := f[frags[k].start]], F, T, frags, k + 1, Frag(nfa.start, frags[k].end))
  {
    var f' := f[nfa.end := f[frags[k].start]];
    forall j | 0 <= j < k + 1 ensures f'[Seam(frags, first, j)] == F[frags[j].start] {
      if j < k {
        assert f'[Seam(frags, first, j)] == f[Seam(frags, first, j)];
      }
    }
    forall j | k + 1 <= j < |frags| ensures f'[frags[j].end] == [] && f'[frags[j].start] == F[frags[j].start] {
      assert f'[frags[j].end] == f[frags[j].end] && f'[frags[j].start] == f[frags[j].start];
    }
    assert f'[frags[k].end] == f[frags[k].end] && f'[|F|] == f[|F|];
  }

  /** The lists and records after the `k`th append, as `Linked` and `Chained` say. */
  lemma JoinRecordsStep(f: seq<seq<nat>>, b: seq<seq<nat>>, t: seq<Transition>,
                        F: seq<seq<nat>>, B: seq<seq<nat>>, T: seq<Transition>, frags: seq<Frag>, k: nat, nfa: Frag)
    requires JoinRecords(f, b, t, F, B, T, frags, k) && k < |frags|
    requires nfa.end == Seam(frags, |F| + 1, k) && f[frags[k].start] == F[frags[k].start]
    ensures JoinRecords(f[nfa.end := f[frags[k].start]], b, Redirected(t, f[frags[k].start], nfa.end), F, B, T, frags, k + 1)
  {
  }

  method DisjunctionNfa(arena: Arena, ctr: Dfa.Counter, e: Node, cs: set<char>) returns (r: Result<Frag>)
    requires e.Disjunction? && Ready(arena, ctr)
    modifies arena, ctr
    ensures Ready(arena, ctr) && old(ctr.n) <= ctr.n
    ensures Framed(old(arena.forward), old(arena.back), arena.forward, arena.back)
    ensures r.Err? <==> Problem(e).Some?
    ensures r.Err? ==> r.error == Unsupported(Problem(e).value)
    ensures r.Ok? ==> IsFrag(arena.forward, old(|arena.forward|), r.value)
    decreases AssertionDepth(e), e, 2
  {
    ghost var f0, b0 := arena.forward, arena.back;
    var l := SubNfa(arena, ctr, e.left, cs);
    if l.Err? {
      return Err(l.error);
    }
    ghost var f1, b1 := arena.forward, arena.back;
    var rr := SubNfa(arena, ctr, e.right, cs);
    FramedTrans(f0, b0, f1, b1, arena.forward, arena.back);
    if rr.Err? {
      return Err(rr.error);
    }
    if l.value.Some? {
      FragKept(f1, |f0|, l.value.value, arena.forward);
    }
    ghost var f2, b2 := arena.forward, arena.back;
    var nfa;
    ghost var lf, rf;
    nfa, lf, rf := DisjPost(arena, ctr, |f0|, l.value, rr.value);
    assert f2[..|f0|] == f0 && b2[..|f0|] == b0;
    r := Ok(nfa);
  }

  /** The post-visit of a `Disjunction` (diff.js:160-170): each side's fragment,
      an empty one for a missing side, joined by `Fork`. */
  method DisjPost(arena: Arena, ghost ctr: Dfa.Counter, ghost lo: nat, l: Option<Frag>, r: Option<Frag>)
    returns (nfa: Frag, ghost lf: Frag, ghost rf: Frag)
    requires Ready(arena, ctr) && lo <= |arena.forward|
    requires l.Some? ==> IsFrag(arena.forward, lo, l.value)
    requires r.Some? ==> IsFrag(arena.forward, lo, r.value)
    modifies arena
    ensures Ready(arena, ctr) && Framed(old(arena.forward[..lo]), old(arena.back[..lo]), arena.forward, arena.back)
    ensures IsFrag(arena.forward, lo, nfa)
    ensures (l.Some? ==> lf == l.value) && (r.Some? ==> rf == r.value)
    ensures var n, k := |arena.forward| - 2, |arena.trans| - 4;
      && nfa == Frag(n, n + 1) && old(|arena.trans|) <= k && arena.trans[..old(|arena.trans|)] == old(arena.trans)
      && arena.trans[k..] == [Transition(None, None, n, lf.start), Transition(None, None, n, rf.start),
                              Transition(None, None, lf.end, n + 1), Transition(None, None, rf.end, n + 1)]
      && k == old(|arena.trans|) + Missing(l) + Missing(r)
      && |arena.forward| == old(|arena.forward|) + 2 * Missing(l) + 2 * Missing(r) + 2
      && (l.None? ==> lf == Frag(old(|arena.forward|), old(|arena.forward|) + 1)
                      && arena.trans[old(|arena.trans|)] == Transition(None, None, lf.start, lf.end))
      && (r.None? ==> rf == Frag(n - 2, n - 1) && arena.trans[k - 1] == Transition(None, None, rf.start, rf.end))
  {
    ghost var f0, b0 := arena.forward[..lo], arena.back[..lo];
    var lf', rf' := Sides(arena, ctr, lo, l, r);
    ghost var f4, b4, t4 := arena.forward, arena.back, arena.trans;
    nfa := Fork(arena, ctr, lo, lf', rf');
    assert f4[..lo] == f0 && b4[..lo] == b0;
    lf, rf := lf', rf';
    assert arena.trans[..|t4|] == t4 && arena.trans[|t4|..] == [Transition(None, None, nfa.start, lf.start),
      Transition(None, None, nfa.start, rf.start), Transition(None, None, lf.end, nfa.end), Transition(None, None, rf.end, nfa.end)];
    assert arena.trans[..old(|arena.trans|)] == t4[..old(|arena.trans|)];
  }

  /** The two sides of a `Disjunction`, each its child's fragment or a fresh
      empty one. */
  method Sides(arena: Arena, ghost ctr: Dfa.Counter, ghost lo: nat, l: Option<Frag>, r: Option<Frag>)
    returns (lf: Frag, rf: Frag)
    requires Ready(arena, ctr) && lo <= |arena.forward|
    requires l.Some? ==> IsFrag(arena.forward, lo, l.value)
    requires r.Some? ==> IsFrag(arena.forward, lo, r.value)
    modifies arena
    ensures Ready(arena, ctr) && Framed(old(arena.forward[..lo]), old(arena.back[..lo]), arena.forward, arena.back)
    ensures IsFrag(arena.forward, lo, lf) && IsFrag(arena.forward, lo, rf)
    ensures (l.Some? ==> lf == l.value) && (r.Some? ==> rf == r.value)
    ensures |arena.trans| >= old(|arena.trans|) && arena.trans[..old(|arena.trans|)] == old(arena.trans)
    ensures |arena.trans| == old(|arena.trans|) + Missing(l) + Missing(r)
    ensures |arena.forward| == old(|arena.forward|) + 2 * Missing(l) + 2 * Missing(r)
    ensures l.None? ==> && lf == Frag(old(|arena.forward|), old(|arena.forward|) + 1)
                        && arena.trans[old(|arena.trans|)] == Transition(None, None, lf.start, lf.end)
    ensures r.None? ==> && rf == Frag(|arena.forward| - 2, |arena.forward| - 1)
                        && arena.trans[|arena.trans| - 1] == Transition(None, None, rf.start, rf.end)
  {
    ghost var f0, b0 := arena.forward[..lo], arena.back[..lo];
    ghost var f2, b2 := arena.forward, arena.back;
    lf := OrId(arena, ctr, l);
    FramedTrans(f0, b0, f2, b2, arena.forward, arena.back);
    if r.Some? {
      FragKept(f2, lo, r.value, arena.forward);
    }
    ghost var f3, b3, t3 := arena.forward, arena.back, arena.trans;
    assert t3[..old(|arena.trans|)] == old(arena.trans);
    rf := OrId(arena, ctr, r);
    FramedTrans(f0, b0, f3, b3, arena.forward, arena.back);
    FragKept(f3, lo, lf, arena.forward);
    assert arena.trans[..|t3|] == t3;
    assert arena.trans[..old(|arena.trans|)] == t3[..old(|arena.trans|)];
  }

  method RepetitionNfa(arena: Arena, ctr: Dfa.Counter, e: Node, cs: set<char>) returns (r: Result<Frag>)
    requires e.Repetition? && Ready(arena, ctr)
    modifies arena, ctr
    ensures Ready(arena, ctr) && old(ctr.n) <= ctr.n
    ensures Framed(old(arena.forward), old(arena.back), arena.forward, arena.back)
    ensures r.Err? <==> Problem(e).Some?
    ensures r.Err? ==> r.error == Unsupported(Problem(e).value)
    ensures r.Ok? ==> IsFrag(arena.forward, old(|arena.forward|), r.value)
    decreases AssertionDepth(e), e, 2
  {
    ghost var f0, b0 := arena.forward, arena.back;
    var src := ToNfa(arena, ctr, e.body, cs);
    if src.Err? {
      return Err(src.error);
    }
    var bounds := Bounds(e.quantifier);
    var from, to := bounds.0, bounds.1;
    ghost var f1, b1 := arena.forward, arena.back;
    ghost var mid := |f1|;
    var nfa := Id(arena, ctr);
    FramedTrans(f0, b0, f1, b1, arena.forward, arena.back);
    FragKept(f1, |f0|, src.value, arena.forward);
    ghost var f2, b2 := arena.forward, arena.back;
    nfa := Repeat(arena, ctr, |f0|, mid, src.value, nfa, from);
    assert f2[..mid] == f1 && b2[..mid] == b1;
    FramedTrans(f0, b0, f1, b1, arena.forward, arena.back);
    ghost var f3, b3 := arena.forward, arena.back;
    if to.Some? {
      ghost var ends;
      nfa, ends := Ranged(arena, ctr, |f0|, mid, src.value, nfa, from, to.value);
      assert f3[..mid] == f1 && b3[..mid] == b1;
      FramedTrans(f0, b0, f1, b1, arena.forward, arena.back);
    } else {
      nfa := Starred(arena, ctr, |f0|, mid, src.value, nfa);
      assert f3[..|f0|] == f0 && b3[..|f0|] == b0;
    }
    r := Ok(nfa);
  }

  /** The body's fragment `src` lies among the nodes from `lo` to `mid`, and
      the fragment `nfa` being chained after it among the nodes from `mid`. */
  ghost predicate Chain(f: seq<seq<nat>>, lo: nat, mid: nat, src: Frag, nfa: Frag) {
    && IsFrag(f, lo, src) && src.start < mid && src.end < mid
    && IsFrag(f, mid, nfa)
  }

  /** One copy of the repeated body, chained onto the end of `nfa` (diff.js:195, 201). */
  method CopyJoin(arena: Arena, ghost ctr: Dfa.Counter, ghost lo: nat, ghost mid: nat, src: Frag, nfa: Frag)
    returns (r: Frag)
    requires Ready(arena, ctr) && Chain(arena.forward, lo, mid, src, nfa)
    modifies arena
    ensures Ready(arena, ctr) && Framed(old(arena.forward[..mid]), old(arena.back[..mid]), arena.forward, arena.back)
    ensures Chain(arena.forward, lo, mid, src, r) && r.start == nfa.start && nfa.end < r.end
  {
    ghost var f0, b0 := arena.forward, arena.back;
    var c;
    ghost var m;
    c, m := Copy(arena, ctr, src);
    ghost var f1 := arena.forward;
    assert f1[nfa.end] == f1[..|f0|][nfa.end] && f1[src.end] == f1[..|f0|][src.end];
    r := Join(arena, ctr, nfa, c);
    PrefixAfterUpdate(f1, nfa.end, f1[c.start], mid);
    assert f1[..mid] == f0[..mid] && arena.back[..mid] == b0[..mid] by {
      assert f1[..mid] == f1[..|f0|][..mid];
      assert arena.back[..mid] == arena.back[..|b0|][..mid];
    }
  }

  /** The `from` required copies of the body, chained one after another (diff.js:194-196). */
  method Repeat(arena: Arena, ghost ctr: Dfa.Counter, ghost lo: nat, ghost mid: nat, src: Frag, nfa0: Frag, from: nat)
    returns (nfa: Frag)
    requires Ready(arena, ctr) && Chain(arena.forward, lo, mid, src, nfa0) && mid <= |arena.forward|
    modifies arena
    ensures Ready(arena, ctr) && Framed(old(arena.forward[..mid]), old(arena.back[..mid]), arena.forward, arena.back)
    ensures Chain(arena.forward, lo, mid, src, nfa) && nfa.start == nfa0.start && nfa0.end <= nfa.end
    ensures from == 0 ==> nfa == nfa0
    ensures from > 0 ==> nfa0.end < nfa.end
  {
    ghost var f0, b0 := arena.forward[..mid], arena.back[..mid];
    nfa := nfa0;
    var i := 0;
    while i < from
      invariant 0 <= i <= from && (i == 0 ==> nfa == nfa0) && (i > 0 ==> nfa0.end < nfa.end)
      invariant Ready(arena, ctr) && |arena.forward| >= mid && |arena.back| >= mid
      invariant arena.forward[..mid] == f0 && arena.back[..mid] == b0
      invariant Chain(arena.forward, lo, mid, src, nfa) && nfa.start == nfa0.start && nfa0.end <= nfa.end
    {
      nfa := CopyJoin(arena, ctr, lo, mid, src, nfa);
      i := i + 1;
    }
  }

  /** The bounded tail of `{from,to}`: `to - from` optional copies, each of
      whose ends gets a move to the final end. */
  method Ranged(arena: Arena, ghost ctr: Dfa.Counter, ghost lo: nat, ghost mid: nat, src: Frag, nfa0: Frag, from: nat, to: nat)
    returns (nfa: Frag, ghost ends: seq<nat>)
    requires Ready(arena, ctr) && Chain(arena.forward, lo, mid, src, nfa0) && mid <= |arena.forward|
    modifies arena
    ensures Ready(arena, ctr) && Framed(old(arena.forward[..mid]), old(arena.back[..mid]), arena.forward, arena.back)
    ensures Chain(arena.forward, lo, mid, src, nfa) && nfa.start == nfa0.start
    ensures |ends| == (if from < to then to - from else 0) && (|ends| > 0 ==> ends[0] == nfa0.end)
    ensures |arena.trans| >= |ends|
    ensures forall j | 0 <= j < |ends| ::
              ends[j] != nfa.end && arena.trans[|arena.trans| - |ends| + j] == Transition(None, None, ends[j], nfa.end)
  {
    ghost var f0, b0 := arena.forward[..mid], arena.back[..mid];
    nfa := nfa0;
    var es: seq<nat> := [];
    var i := from;
    while i < to
      invariant Ready(arena, ctr) && |arena.forward| >= mid && |arena.back| >= mid
      invariant arena.forward[..mid] == f0 && arena.back[..mid] == b0
      invariant Chain(arena.forward, lo, mid, src, nfa) && nfa.start == nfa0.start
      invariant forall k | 0 <= k < |es| :: mid <= es[k] < nfa.end
      invariant |es| == if from < i then i - from else 0
      invariant from <= i && (i <= to || i == from)
      invariant (|es| == 0 ==> nfa == nfa0) && (|es| > 0 ==> es[0] == nfa0.end)
    {
      es := es + [nfa.end];
      nfa := CopyJoin(arena, ctr, lo, mid, src, nfa);
      i := i + 1;
    }
    ghost var f1, b1 := arena.forward, arena.back;
    Converge(arena, ctr, lo, mid, src, nfa, es);
    assert f1[..mid] == f0 && b1[..mid] == b0;
    ends := es;
  }

  /** The closing loop of a bounded repetition (diff.js:203-205): one unlabelled
      move from each saved end, in order, to the final end. */
  method Converge(arena: Arena, ghost ctr: Dfa.Counter, ghost lo: nat, ghost mid: nat, src: Frag, nfa: Frag, es: seq<nat>)
    requires Ready(arena, ctr) && Chain(arena.forward, lo, mid, src, nfa) && mid <= |arena.forward|
    requires forall k | 0 <= k < |es| :: mid <= es[k] < nfa.end
    modifies arena
    ensures Ready(arena, ctr) && Framed(old(arena.forward[..mid]), old(arena.back[..mid]), arena.forward, arena.back)
    ensures Chain(arena.forward, lo, mid, src, nfa)
    ensures |arena.trans| == old(|arena.trans|) + |es| && arena.trans[..old(|arena.trans|)] == old(arena.trans)
    ensures forall j | 0 <= j < |es| :: arena.trans[old(|arena.trans|) + j] == Transition(None, None, es[j], nfa.end)
  {
    ghost var f0, b0, t1 := arena.forward[..mid], arena.back[..mid], arena.trans;
    var k := 0;
    while k < |es|
      invariant Ready(arena, ctr) && |arena.forward| >= mid && |arena.back| >= mid && k <= |es|
      invariant arena.forward[..mid] == f0 && arena.back[..mid] == b0
      invariant Chain(arena.forward, lo, mid, src, nfa)
      invariant |arena.trans| == |t1| + k && arena.trans[..|t1|] == t1
      invariant forall j | 0 <= j < k :: arena.trans[|t1| + j] == Transition(None, None, es[j], nfa.end)
    {
      ghost var fB, tB := arena.forward, arena.trans;
      Eps(arena, ctr, mid, es[k], nfa.end);
      assert arena.forward[src.end] == arena.forward[..mid][src.end] == fB[..mid][src.end];
      assert arena.trans[..|tB|] == tB;
      k := k + 1;
    }
  }

  /** The unbounded tail: the body loops back on itself, and a new
      fragment either skips it or enters it and leaves from its end. */
  method Starred(arena: Arena, ghost ctr: Dfa.Counter, ghost lo: nat, ghost mid: nat, src: Frag, nfa0: Frag)
    returns (nfa: Frag)
    requires Ready(arena, ctr) && Chain(arena.forward, lo, mid, src, nfa0) && lo <= mid <= |arena.forward|
    modifies arena
    ensures Ready(arena, ctr) && Framed(old(arena.forward[..lo]), old(arena.back[..lo]), arena.forward, arena.back)
    ensures IsFrag(arena.forward, mid, nfa) && nfa == Frag(nfa0.start, old(|arena.forward|) + 1)
    ensures var n, k := old(|arena.forward|), old(|arena.trans|);
      && |arena.trans| == k + 4 && arena.trans[..k] == old(arena.trans)
      && arena.trans[k..] == [Transition(None, None, src.end, src.start), Transition(None, None, nfa0.end, n + 1),
                              Transition(None, None, nfa0.end, src.start), Transition(None, None, src.end, n + 1)]
  {
    var skip := Bypass(arena, ctr, lo, src);
    ghost var fB, tB := arena.forward, arena.trans;
    nfa := Join(arena, ctr, nfa0, skip);
    PrefixAfterUpdate(fB, nfa0.end, fB[skip.start], lo);
    StarTrail(old(arena.trans), tB, arena.trans, src, skip.start, nfa0.end);
  }

  /** The new records of a star before `nfaAppend`: the body's end moves back
      to its start, and two new nodes `start` and `end`, where `start` moves
      to `end` and into the body, and the body's end moves to `end`. */
  method Bypass(arena: Arena, ghost ctr: Dfa.Counter, ghost lo: nat, src: Frag) returns (r: Frag)
    requires Ready(arena, ctr) && lo <= src.start < |arena.forward| && lo <= src.end < |arena.forward|
    modifies arena
    ensures Ready(arena, ctr) && Framed(old(arena.forward[..lo]), old(arena.back[..lo]), arena.forward, arena.back)
    ensures var n, k := old(|arena.forward|), old(|arena.trans|);
      && r == Frag(n, n + 1) && |arena.forward| == n + 2
      && arena.forward[n] == [k + 1, k + 2] && arena.forward[n + 1] == []
      && (forall x | 0 <= x < n && x != src.end :: arena.forward[x] == old(arena.forward)[x])
      && arena.trans == old(arena.trans) + [Transition(None, None, src.end, src.start)]
                          + [Transition(None, None, n, n + 1), Transition(None, None, n, src.start),
                             Transition(None, None, src.end, n + 1)]
  {
    ghost var f0, b0 := arena.forward[..lo], arena.back[..lo];
    Eps(arena, ctr, lo, src.end, src.start);
    assert arena.forward[..lo] == f0 && arena.back[..lo] == b0;
    var start := arena.Empty();
    var end := arena.Empty();
    assert arena.forward[..lo] == f0 && arena.back[..lo] == b0;
    Eps(arena, ctr, lo, start, end);
    Eps(arena, ctr, lo, start, src.start);
    Eps(arena, ctr, lo, src.end, end);
    r := Frag(start, end);
  }

  /** The records of a star once `nfaAppend` has moved the new start's two
      moves onto the end of the fragment before it, `e0`. */
  lemma StarTrail(t0: seq<Transition>, tB: seq<Transition>, tF: seq<Transition>, src: Frag, n: nat, e0: nat)
    requires tB == t0 + [Transition(None, None, src.end, src.start)]
                     + [Transition(None, None, n, n + 1), Transition(None, None, n, src.start), Transition(None, None, src.end, n + 1)]
    requires tF == Redirected(tB, [|t0| + 1, |t0| + 2], e0)
    ensures var k := |t0|;
      && |tF| == k + 4 && tF[..k] == t0
      && tF[k..] == [Transition(None, None, src.end, src.start), Transition(None, None, e0, n + 1),
                     Transition(None, None, e0, src.start), Transition(None, None, src.end, n + 1)]
  {
    var k := |t0|;
    assert tF[..k] == t0 by {
      forall t | 0 <= t < k ensures tF[t] == t0[t] {
        assert tB[t] == t0[t];
      }
    }
  }

  method AssertionNfa(arena: Arena, ctr: Dfa.Counter, e: Node, cs: set<char>) returns (r: Result<Frag>)
    requires e.Assertion? && Ready(arena, ctr)
    modifies arena, ctr
    ensures Ready(arena, ctr) && old(ctr.n) <= ctr.n
    ensures Framed(old(arena.forward), old(arena.back), arena.forward, arena.back)
    ensures r.Err? <==> Problem(e).Some?
    ensures r.Err? ==> r.error == Unsupported(Problem(e).value)
    ensures r.Ok? ==> IsFrag(arena.forward, old(|arena.forward|), r.value)
    decreases AssertionDepth(e), e, 2
  {
    ghost var f0, b0 := arena.forward, arena.back;
    var start := arena.Empty();
    var end := arena.Empty();
    assert arena.forward[..|f0|] == f0 && arena.back[..|b0|] == b0;
    ghost var f1, b1 := arena.forward, arena.back;
    ExpansionsAreShallower();
    ExpansionsCompile();
    match e.kind
    case Caret =>
      r := ToNfa(arena, ctr, StartExpansion(), cs);
      FramedTrans(f0, b0, f1, b1, arena.forward, arena.back);
    case Dollar =>
      r := ToNfa(arena, ctr, EndExpansion(), cs);
      FramedTrans(f0, b0, f1, b1, arena.forward, arena.back);
    case WordBoundary =>
      r := ToNfa(arena, ctr, BoundaryExpansion(), cs);
      FramedTrans(f0, b0, f1, b1, arena.forward, arena.back);
    case NonWordBoundary =>
      r := Err(Unsupported("Unsupported assertion: \\B"));
    case Lookahead =>
      ghost var look, fwd;
      r, look, fwd := Lookaround(arena, ctr, e, cs, |f0|, start, end);
      assert f1[..|f0|] == f0 && b1[..|f0|] == b0;
    case Lookbehind =>
      ghost var look, fwd;
      r, look, fwd := Lookaround(arena, ctr, e, cs, |f0|, start, end);
      assert f1[..|f0|] == f0 && b1[..|f0|] == b0;
  }

  /** A lookaround: the acceptor of its body, padded with `.*` on the side
      away from the cursor (reversed for a lookbehind, complemented when
      negative), placed on one assertion move from `start` to `end`. `fwd` is
      the padded body's acceptor as `LookBody` gives it. */
  method Lookaround(arena: Arena, ctr: Dfa.Counter, e: Node, cs: set<char>, ghost lo: nat, start: nat, end: nat)
    returns (r: Result<Frag>, ghost look: Look, ghost fwd: Dfa.Dfa)
    requires e.Assertion? && (e.kind.Lookahead? || e.kind.Lookbehind?) && Ready(arena, ctr)
    requires IsFrag(arena.forward, lo, Frag(start, end))
    modifies arena, ctr
    ensures Ready(arena, ctr) && old(ctr.n) <= ctr.n
    ensures Framed(old(arena.forward[..lo]), old(arena.back[..lo]), arena.forward, arena.back)
    ensures r.Err? <==> OptProblem(e.assertion).Some?
    ensures r.Err? ==> r.error == Unsupported(OptProblem(e.assertion).value)
    ensures r.Ok? ==> r.value == Frag(start, end) && IsFrag(arena.forward, lo, r.value)
    ensures r.Ok? ==> && |arena.trans| > 0 && arena.trans[|arena.trans| - 1] == Transition(None, Some(look), start, end)
                      && look.rev == e.kind.Lookbehind? && Dfa.Valid(fwd)
    ensures r.Ok? ==> forall w | Dfa.Over(w, cs) ::
              Dfa.Accepts(look.body, w) <==>
                (e.negative != Dfa.Accepts(fwd, if e.assertion.Some? && e.kind.Lookbehind? then Dfa.Reverse(w) else w))
    decreases AssertionDepth(e), e, 1
  {
    ghost var f0, b0 := arena.forward, arena.back;
    var rev := e.kind.Lookbehind?;
    var res: Result<Dfa.Dfa>;
    ghost var mid: int;
    res, mid, fwd := LookBody(arena, ctr, e, cs);
    look := Look(false, Dfa.Dfa(0, {}, map[]));
    if res.Err? {
      return Err(res.error), look, fwd;
    }
    ghost var f1, b1 := arena.forward, arena.back;
    ghost var n1 := ctr.n;
    FragKept(f0, lo, Frag(start, end), f1);
    r, look := Place(arena, ctr, lo, start, end, rev, e.negative, res.value, mid, cs);
    assert f1[..lo] == f0[..lo] && b1[..lo] == b0[..lo] by {
      assert f1[..lo] == f1[..|f0|][..lo];
      assert b1[..lo] == b1[..|b0|][..lo];
    }
    forall w | Dfa.Over(w, cs)
      ensures Dfa.Accepts(look.body, w) <==>
                (e.negative != Dfa.Accepts(fwd, if e.assertion.Some? && e.kind.Lookbehind? then Dfa.Reverse(w) else w))
    {
      if e.negative {
        Dfa.ComplementLaw(res.value, cs, n1, look.body, w);
      }
    }
  }

  /** The assertion move of a lookaround (diff.js:248-249): the body is negated
      first when the lookaround is negative, then one unlabelled record carries
      it. `look` is the record's assertion, whose body is `d` or, when
      negative, its complement over `cs`. */
  method Place(arena: Arena, ctr: Dfa.Counter, ghost lo: nat, start: nat, end: nat, rev: bool, negative: bool,
               d: Dfa.Dfa, ghost mid: int, cs: set<char>) returns (r: Result<Frag>, ghost look: Look)
    requires Ready(arena, ctr) && IsFrag(arena.forward, lo, Frag(start, end))
    requires LooksReady(Looks(arena.trans), mid) && mid <= ctr.n
    requires Dfa.Valid(d) && Dfa.Below(d, ctr.n) && Dfa.Above(d, mid)
    modifies arena, ctr
    ensures Ready(arena, ctr) && old(ctr.n) <= ctr.n
    ensures Framed(old(arena.forward[..lo]), old(arena.back[..lo]), arena.forward, arena.back)
    ensures r == Ok(Frag(start, end)) && IsFrag(arena.forward, lo, r.value)
    ensures arena.trans == old(arena.trans) + [Transition(None, Some(look), start, end)]
    ensures arena.forward == AddTo(old(arena.forward), start, old(|arena.trans|))
    ensures arena.back == AddTo(old(arena.back), end, old(|arena.trans|))
    ensures look.rev == rev && Dfa.Valid(look.body)
    ensures !negative ==> look.body == d
    ensures negative ==> Dfa.IsComplement(d, cs, old(ctr.n), look.body)
  {
    var body := d;
    if negative {
      body := Dfa.Negate(body, cs, ctr);
    }
    ghost var t0, f2, b2 := arena.trans, arena.forward, arena.back;
    look := Look(rev, body);
    arena.Edge(start, end, None, Some(Look(rev, body)), false);
    LooksAppend(t0, Transition(None, Some(Look(rev, body)), start, end));
    LooksReadyAdd(Looks(t0), mid, ctr.n, Look(rev, body));
    PrefixAfterUpdate(f2, start, f2[start] + [|t0|], lo);
    PrefixAfterUpdate(b2, end, b2[end] + [|t0|], lo);
    r := Ok(Frag(start, end));
  }

  /** The tree a lookaround compiles: its body padded with `.*` on the side
      away from the cursor, or `.*` alone when there is no body. */
  function Padded(e: Node): Node
    requires e.Assertion?
  {
    if e.assertion.None? then DotStar()
    else if e.kind.Lookbehind? then Alternative([DotStar(), e.assertion.value])
    else Alternative([e.assertion.value, DotStar()])
  }

  /** The acceptor of a lookaround's body before any complement: `fwd` is
      what `Compile` gives for `Padded(e)`, and for a lookbehind with a body
      the result is `fwd` reversed, so that it reads the input from the
      cursor backwards. */
  method LookBody(arena: Arena, ctr: Dfa.Counter, e: Node, cs: set<char>)
    returns (res: Result<Dfa.Dfa>, ghost mid: int, ghost fwd: Dfa.Dfa)
    requires e.Assertion? && (e.kind.Lookahead? || e.kind.Lookbehind?) && Ready(arena, ctr)
    modifies arena, ctr
    ensures Ready(arena, ctr) && old(ctr.n) <= mid <= ctr.n && LooksReady(Looks(arena.trans), mid)
    ensures Framed(old(arena.forward), old(arena.back), arena.forward, arena.back)
    ensures res.Err? <==> OptProblem(e.assertion).Some?
    ensures res.Err? ==> res.error == Unsupported(OptProblem(e.assertion).value)
    ensures res.Ok? ==> Dfa.Valid(res.value) && Dfa.Below(res.value, ctr.n) && Dfa.Above(res.value, mid) && Dfa.Valid(fwd)
    ensures res.Ok? && !(e.assertion.Some? && e.kind.Lookbehind?) ==> res.value == fwd
    ensures res.Ok? && e.assertion.Some? && e.kind.Lookbehind? ==>
              forall w :: Dfa.Accepts(res.value, w) <==> Dfa.Accepts(fwd, Dfa.Reverse(w))
    decreases AssertionDepth(e), e, 0
  {
    assert AssertionDepth(DotStar()) == 0 && Problem(DotStar()) == None;
    ghost var z, gz;
    if e.assertion.None? {
      res, mid, z, gz := Compile(arena, ctr, Padded(e), cs);
    } else {
      var c := e.assertion.value;
      LookaroundBodyShallower(c);
      PaddedProblem(c);
      assert AssertionDepth(e) == 1 + AssertionDepth(c);
      res, mid, z, gz := Compile(arena, ctr, Padded(e), cs);
      if res.Ok? && e.kind.Lookbehind? {
        fwd := res.value;
        var d;
        d, mid := Reversed(arena, ctr, res.value, mid);
        res := Ok(d);
        return;
      }
    }
    fwd := if res.Ok? then res.value else Dfa.Dfa(0, {}, map[]);
  }

  /** The acceptor of the reversed language: `d` rebuilt as a graph, then
      determinised backwards. */
  method Reversed(arena: Arena, ctr: Dfa.Counter, d: Dfa.Dfa, ghost mid: int) returns (r: Dfa.Dfa, ghost mid': int)
    requires Ready(arena, ctr) && Dfa.Valid(d) && LooksReady(Looks(arena.trans), mid) && mid <= ctr.n
    modifies arena, ctr
    ensures Ready(arena, ctr) && mid <= mid' == old(ctr.n) <= ctr.n && LooksReady(Looks(arena.trans), mid')
    ensures Framed(old(arena.forward), old(arena.back), arena.forward, arena.back)
    ensures Dfa.Valid(r) && Dfa.Below(r, ctr.n) && Dfa.Above(r, mid')
    ensures forall w :: Dfa.Accepts(r, w) <==> Dfa.Accepts(d, Dfa.Reverse(w))
  {
    ghost var n0, k0 := |arena.forward|, |arena.trans|;
    var n, memo, ord := Rebuild.DfaToNfa(arena, d);
    LooksReadyLater(Looks(arena.trans), mid, ctr.n);
    mid' := ctr.n;
    Subset.GraphOfArena(arena);
    ghost var m1, c1;
    r, m1, c1 := Subset.ToDfaRev(arena, n, ctr);
    forall w ensures Dfa.Accepts(r, w) <==> Dfa.Accepts(d, Dfa.Reverse(w)) {
      Subset.SubsetAccepts(Subset.Graph(arena.back, arena.trans), n.end, n.start, mid', ctr.n, r, m1, c1, w);
      Rebuild.RebuiltReversed(d, n0, k0, arena.forward, arena.back, arena.trans, n.end, memo, ord, w);
    }
  }

  /** `compile`: two product passes with the assertions (forward, then
      backward), then two subset constructions with a rebuild between them,
      so the result reads the input forwards. The assertions present before
      the last pass were numbered below `mid`, and the result above it. On
      success the result accepts what `Passes` promises of the fragment `z`
      the products left in the graph `gz`. */
  method Compile(arena: Arena, ctr: Dfa.Counter, e: Node, cs: set<char>)
    returns (r: Result<Dfa.Dfa>, ghost mid: int, ghost z: Frag, ghost gz: Subset.Graph)
    requires Ready(arena, ctr)
    modifies arena, ctr
    ensures Ready(arena, ctr) && old(ctr.n) <= mid <= ctr.n && LooksReady(Looks(arena.trans), mid)
    ensures Framed(old(arena.forward), old(arena.back), arena.forward, arena.back)
    ensures r.Err? <==> Problem(e).Some?
    ensures r.Err? ==> r.error == Unsupported(Problem(e).value)
    ensures r.Ok? ==> Dfa.Valid(r.value) && Dfa.Below(r.value, ctr.n) && Dfa.Above(r.value, mid)
    ensures r.Ok? ==> && Subset.GraphOk(gz) && z.start < |gz.d| && z.end < |gz.d|
                      && forall w :: Dfa.Accepts(r.value, w) <==> Subset.RevAccepts(gz, {z.end}, Dfa.Reverse(w), z.start)
    decreases AssertionDepth(e), e, 4
  {
    var x := ToNfa(arena, ctr, e, cs);
    mid := ctr.n;
    if x.Err? {
      z, gz := Frag(0, 0), Subset.Graph([], []);
      r := Err(x.error);
      return;
    }
    ghost var f1, b1 := arena.forward, arena.back;
    var d;
    d, mid, z, gz := Passes(arena, ctr, x.value);
    FramedTrans(old(arena.forward), old(arena.back), f1, b1, arena.forward, arena.back);
    r := Ok(d);
  }

  /** The passes of `compile` after `toNfa`: the two products give the
      fragment `z` in the graph `gz`; the subset construction reads `gz`
      backwards from `z`'s end, and `Reversed` turns the result around, so
      `d` accepts `w` exactly when that first construction accepts `w`
      reversed. */
  method Passes(arena: Arena, ctr: Dfa.Counter, x: Frag) returns (d: Dfa.Dfa, ghost mid: int, ghost z: Frag, ghost gz: Subset.Graph)
    requires Ready(arena, ctr) && x.start < |arena.forward| && x.end < |arena.forward|
    modifies arena, ctr
    ensures Ready(arena, ctr) && old(ctr.n) <= mid <= ctr.n && LooksReady(Looks(arena.trans), mid)
    ensures Framed(old(arena.forward), old(arena.back), arena.forward, arena.back)
    ensures Dfa.Valid(d) && Dfa.Below(d, ctr.n) && Dfa.Above(d, mid)
    ensures Subset.GraphOk(gz) && z.start < |gz.d| && z.end < |gz.d|
    ensures forall w :: Dfa.Accepts(d, w) <==> Subset.RevAccepts(gz, {z.end}, Dfa.Reverse(w), z.start)
  {
    ghost var f0, b0, looks := arena.forward, arena.back, Looks(arena.trans);
    var y, _, _ := Product.Intersect(arena, x, false);
    ghost var f1, b1 := arena.forward, arena.back;
    var z', _, _ := Product.Intersect(arena, y, true);
    z := z';
    assert Framed(f0, b0, f1, b1) && Framed(f1, b1, arena.forward, arena.back);
    FramedTrans(f0, b0, f1, b1, arena.forward, arena.back);
    gz := Subset.Graph(arena.back, arena.trans);
    Subset.GraphOfArena(arena);
    ghost var c0 := ctr.n;
    var d0, m0, cl0 := Subset.ToDfaRev(arena, z', ctr);
    ghost var f2, b2 := arena.forward, arena.back;
    LooksReadyLater(looks, old(ctr.n), ctr.n);
    d, mid := Reversed(arena, ctr, d0, ctr.n);
    FramedTrans(f0, b0, f2, b2, arena.forward, arena.back);
    forall w ensures Dfa.Accepts(d, w) <==> Subset.RevAccepts(gz, {z.end}, Dfa.Reverse(w), z.start) {
      Subset.SubsetAccepts(gz, z.end, z.start, c0, mid, d0, m0, cl0, Dfa.Reverse(w));
    }
  }

  /** `compileFor`: compile `e` over the alphabet sampled from it and the
      input, clear the moves of accepting states in lazy mode, and reject an
      acceptor without accepting states. `compiled` is `compile`'s result. */
  method CompileFor(arena: Arena, ctr: Dfa.Counter, e: Node, input: string, lazy: bool, visible: char -> bool)
    returns (r: Result<Dfa.Dfa>, cs: set<char>, compiled: Dfa.Dfa)
    requires Ready(arena, ctr)
    modifies arena, ctr
    ensures Ready(arena, ctr)
    ensures forall i | 0 <= i < |input| :: input[i] in cs
    ensures Problem(e).Some? ==> r == Err(Unsupported(Problem(e).value))
    ensures Problem(e).None? ==> Dfa.Valid(compiled)
    ensures Problem(e).None? && compiled.accept == {} ==> r == Err(Unmatchable)
    ensures Problem(e).None? && compiled.accept != {} ==> r == Ok(if lazy then Dfa.Trimmed(compiled) else compiled)
    ensures r.Ok? ==> Dfa.Valid(r.value)
    ensures r.Ok? && lazy ==> forall q | q in r.value.accept :: r.value.edges[q] == map[]
  {
    cs := Alphabet.Charset(e, input, visible);
    var c;
    ghost var mid;
    ghost var z, gz;
    c, mid, z, gz := Compile(arena, ctr, e, cs);
    if c.Err? {
      compiled := Dfa.Dfa(0, {}, map[]);
      return Err(c.error), cs, compiled;
    }
    compiled := c.value;
    var d := compiled;
    if lazy {
      d := Dfa.TrimAccepting(d);
    }
    if d.accept == {} {
      return Err(Unmatchable), cs, compiled;
    }
    r := Ok(d);
  }
}
