/** Deterministic acceptors (`{initial, accept, edges}`), the complement
    construction `negate`, and the lazy-mode trimming `compileFor` performs. */
module Dfa {
  import opened Base

  /** A deterministic acceptor: only the populated transitions are stored. */
  datatype Dfa = Dfa(initial: int, accept: set<int>, edges: map<int, map<char, int>>)

  /** Every state mentioned (initial, accepting, transition target) has an
      entry in `edges`. */
  ghost predicate Valid(d: Dfa) {
    && d.initial in d.edges
    && d.accept <= d.edges.Keys
    && forall k, c | k in d.edges && c in d.edges[k] :: d.edges[k][c] in d.edges
  }

  /** The ids of `d` are all below `n`, so `n` is a fresh id. */
  ghost predicate Below(d: Dfa, n: int) {
    forall k | k in d.edges :: k < n
  }

  /** Every state id is at least `n`: the acceptor was built after the counter reached `n`. */
  ghost predicate Above(d: Dfa, n: int) {
    forall k | k in d.edges :: n <= k
  }

  /** Following the characters of `w` from `s`; `None` when a transition is missing. */
  function Walk(edges: map<int, map<char, int>>, s: int, w: seq<char>): Option<int>
    decreases |w|
  {
    if |w| == 0 then Some(s)
    else if s in edges && w[0] in edges[s] then Walk(edges, edges[s][w[0]], w[1..])
    else None
  }

  predicate Accepts(d: Dfa, w: seq<char>) {
    var r := Walk(d.edges, d.initial, w);
    r.Some? && r.value in d.accept
  }

  lemma {:induction false} WalkConcat(edges: map<int, map<char, int>>, s: int, u: seq<char>, v: seq<char>)
    ensures Walk(edges, s, u + v) == if Walk(edges, s, u).Some? then Walk(edges, Walk(edges, s, u).value, v) else None
    decreases |u|
  {
    if |u| == 0 {
      assert u + v == v;
    } else {
      assert (u + v)[0] == u[0] && (u + v)[1..] == u[1..] + v;
      if s in edges && u[0] in edges[s] {
        WalkConcat(edges, edges[s][u[0]], u[1..], v);
      }
    }
  }

  lemma {:induction false} WalkStaysInside(d: Dfa, s: int, w: seq<char>)
    requires Valid(d) && s in d.edges
    ensures Walk(d.edges, s, w).Some? ==> Walk(d.edges, s, w).value in d.edges
    decreases |w|
  {
    if |w| > 0 && w[0] in d.edges[s] {
      WalkStaysInside(d, d.edges[s][w[0]], w[1..]);
    }
  }

  /** `w` read from its last character to its first. */
  function Reverse(w: seq<char>): (r: seq<char>)
    ensures |r| == |w| && forall i | 0 <= i < |w| :: r[i] == w[|w| - 1 - i]
  {
    seq(|w|, i requires 0 <= i < |w| => w[|w| - 1 - i])
  }

  /** Reading `w` backwards ends with its first character. */
  lemma ReverseFirst(w: seq<char>)
    requires |w| > 0
    ensures Reverse(w) == Reverse(w[1..]) + [w[0]]
  {
  }

  lemma ReverseReverse(w: seq<char>)
    ensures Reverse(Reverse(w)) == w
  {
  }

  /** The process-wide DFA state counter `n`. */
  class Counter {
    var n: int
    constructor ()
      ensures n == 0
    {
      n := 0;
    }
  }

  /** `newState`: a fresh id with an empty transition map. */
  method NewState(ctr: Counter, edges: map<int, map<char, int>>) returns (id: int, edges': map<int, map<char, int>>)
    modifies ctr
    ensures id == old(ctr.n) && ctr.n == id + 1
    ensures edges' == edges[id := map[]]
  {
    id := ctr.n;
    ctr.n := ctr.n + 1;
    edges' := edges[id := map[]];
  }

  /** `r` is row `row` completed by `negate`: its old transitions, and every
      missing character of the alphabet sent to the sink. */
  ghost predicate RowCompleted(row: map<char, int>, cs: set<char>, sink: int, r: map<char, int>) {
    && r.Keys == row.Keys + cs
    && forall c | c in r :: r[c] == if c in row then row[c] else sink
  }

  /** `r` is the acceptor `negate` makes from `d` with `sink` as the new state. */
  ghost predicate IsComplement(d: Dfa, cs: set<char>, sink: int, r: Dfa) {
    && sink !in d.edges
    && r.initial == d.initial
    && r.edges.Keys == d.edges.Keys + {sink}
    && (forall k | k in r.edges :: RowCompleted(OldRow(d, k), cs, sink, r.edges[k]))
    && r.accept == r.edges.Keys - d.accept
  }

  /** The shape of a complement: valid, total over the alphabet, old
      transitions kept, the sink looping and accepting, acceptance flipped. */
  lemma ComplementShape(d: Dfa, cs: set<char>, sink: int, r: Dfa)
    requires Valid(d) && IsComplement(d, cs, sink, r)
    ensures Valid(r)
    ensures forall k, c | k in r.edges && c in cs :: c in r.edges[k]
    ensures forall k, c | k in d.edges && c in d.edges[k] :: c in r.edges[k] && r.edges[k][c] == d.edges[k][c]
    ensures forall c | c in cs :: r.edges[sink][c] == sink
    ensures forall k | k in r.edges :: k in r.accept <==> k !in d.accept
    ensures sink in r.accept
  {
    forall k, c | k in r.edges && c in r.edges[k] ensures r.edges[k][c] in r.edges {
      assert RowCompleted(OldRow(d, k), cs, sink, r.edges[k]);
    }
  }

  /** The transitions `negate` fills into one row, starting from `row`. */
  method CompleteRow(row: map<char, int>, cs: set<char>, sink: int) returns (r: map<char, int>)
    ensures RowCompleted(row, cs, sink, r)
  {
    r := row;
    var rest := cs;
    while rest != {}
      invariant rest <= cs
      invariant row.Keys <= r.Keys <= row.Keys + cs && cs - rest <= r.Keys
      invariant forall c | c in row :: r[c] == row[c]
      invariant forall c | c in r && c !in row :: r[c] == sink
      decreases |rest|
    {
      InhabitedChars(rest);
      var c :| c in rest;
      if c !in r {
        r := r[c := sink];
      }
      rest := rest - {c};
    }
    assert r.Keys == row.Keys + cs;
  }

  /** The row of `k` before `negate`: empty for the new sink. */
  function OldRow(d: Dfa, k: int): map<char, int> {
    if k in d.edges then d.edges[k] else map[]
  }

  /** Completing a completed row changes nothing, so filling the sink's row
      after drawing its loops keeps it as drawn. */
  lemma CompletingTwice(row: map<char, int>, cs: set<char>, sink: int, r1: map<char, int>, r2: map<char, int>)
    requires RowCompleted(row, cs, sink, r1) && RowCompleted(r1, cs, sink, r2)
    ensures r2 == r1 && RowCompleted(row, cs, sink, r2)
  {
    assert r2.Keys == r1.Keys;
  }

  /** What `negate`'s loop has built once the states outside `todo` are done. */
  ghost predicate Completed(d: Dfa, cs: set<char>, sink: int, todo: set<int>, edges: map<int, map<char, int>>, newAccept: set<int>) {
    && edges.Keys == (d.edges.Keys + {sink}) - todo
    && (forall k | k in edges :: RowCompleted(OldRow(d, k), cs, sink, edges[k]))
    && newAccept == edges.Keys - d.accept
  }

  lemma CompletedStep(d: Dfa, cs: set<char>, sink: int, todo: set<int>, edges: map<int, map<char, int>>, newAccept: set<int>,
                      state: int, row: map<char, int>)
    requires Completed(d, cs, sink, todo, edges, newAccept) && state in todo && todo <= d.edges.Keys + {sink}
    requires RowCompleted(OldRow(d, state), cs, sink, row)
    ensures Completed(d, cs, sink, todo - {state}, edges[state := row],
                      if state !in d.accept then newAccept + {state} else newAccept)
  {
  }

  /** `negate`'s loop over all states: complete each row and collect the
      states that were not accepting. */
  method CompleteStates(d: Dfa, cs: set<char>, sink: int) returns (edges: map<int, map<char, int>>, newAccept: set<int>)
    requires sink !in d.edges
    ensures Completed(d, cs, sink, {}, edges, newAccept)
  {
    var loop := CompleteRow(map[], cs, sink);
    edges := map[];
    newAccept := {};
    var todo := d.edges.Keys + {sink};
    while todo != {}
      invariant todo <= d.edges.Keys + {sink}
      invariant Completed(d, cs, sink, todo, edges, newAccept)
      decreases |todo|
    {
      Inhabited(todo);
      var state :| state in todo;
      var row := CompleteRow(if state == sink then loop else d.edges[state], cs, sink);
      if state == sink {
        CompletingTwice(map[], cs, sink, loop, row);
      }
      CompletedStep(d, cs, sink, todo, edges, newAccept, state, row);
      edges := edges[state := row];
      if state !in d.accept {
        newAccept := newAccept + {state};
      }
      todo := todo - {state};
    }
  }

  /** `negate`: add an accepting sink looping on every character, send every
      missing transition to it, and complement the accept set over all states. */
  method Negate(d: Dfa, cs: set<char>, ctr: Counter) returns (r: Dfa)
    requires Valid(d) && Below(d, ctr.n)
    modifies ctr
    ensures ctr.n == old(ctr.n) + 1
    ensures IsComplement(d, cs, old(ctr.n), r) && Valid(r)
    ensures Below(r, ctr.n)
  {
    var sink, _ := NewState(ctr, d.edges);
    var edges, newAccept := CompleteStates(d, cs, sink);
    r := Dfa(d.initial, newAccept, edges);
    ComplementShape(d, cs, sink, r);
  }

  /** Every character of `w` is in the alphabet. */
  ghost predicate Over(w: seq<char>, cs: set<char>) {
    forall i | 0 <= i < |w| :: w[i] in cs
  }

  /** One step in the complement from an old state or the sink. */
  lemma ComplementStep(d: Dfa, cs: set<char>, sink: int, r: Dfa, s: int, c: char)
    requires IsComplement(d, cs, sink, r) && c in cs
    requires s in d.edges || s == sink
    ensures s in r.edges && c in r.edges[s]
    ensures r.edges[s][c] == if s != sink && c in d.edges[s] then d.edges[s][c] else sink
  {
    assert s in r.edges;
    assert RowCompleted(OldRow(d, s), cs, sink, r.edges[s]);
  }

  /** In the complement, a walk follows the old acceptor while it can and
      otherwise ends in the sink. */
  lemma {:induction false} ComplementWalk(d: Dfa, cs: set<char>, sink: int, r: Dfa, s: int, w: seq<char>)
    requires Valid(d) && IsComplement(d, cs, sink, r) && Over(w, cs)
    requires s in d.edges || s == sink
    ensures Walk(r.edges, s, w) == if s != sink && Walk(d.edges, s, w).Some? then Walk(d.edges, s, w) else Some(sink)
    decreases |w|
  {
    if |w| > 0 {
      ComplementStep(d, cs, sink, r, s, w[0]);
      assert Over(w[1..], cs) by {
        assert forall i | 0 <= i < |w[1..]| :: w[1..][i] == w[i + 1];
      }
      if s != sink && w[0] in d.edges[s] {
        ComplementWalk(d, cs, sink, r, d.edges[s][w[0]], w[1..]);
      } else {
        ComplementWalk(d, cs, sink, r, sink, w[1..]);
      }
    }
  }

  /** The complement law: over the alphabet, the negated acceptor accepts
      exactly the words the original rejects. */
  lemma ComplementLaw(d: Dfa, cs: set<char>, sink: int, r: Dfa, w: seq<char>)
    requires Valid(d) && IsComplement(d, cs, sink, r) && Over(w, cs)
    ensures Accepts(r, w) <==> !Accepts(d, w)
  {
    ComplementWalk(d, cs, sink, r, d.initial, w);
    WalkStaysInside(d, d.initial, w);
  }

  /** Negating twice gives back the original acceptance on every word over
      the alphabet. */
  lemma DoubleComplement(d: Dfa, cs: set<char>, sink1: int, c: Dfa, sink2: int, r: Dfa, w: seq<char>)
    requires Valid(d) && IsComplement(d, cs, sink1, c) && IsComplement(c, cs, sink2, r) && Over(w, cs)
    ensures Accepts(r, w) <==> Accepts(d, w)
  {
    ComplementShape(d, cs, sink1, c);
    ComplementLaw(d, cs, sink1, c, w);
    ComplementLaw(c, cs, sink2, r, w);
  }

  /** The acceptor after lazy-mode trimming: every accepting state loses its
      outgoing transitions. */
  function Trimmed(d: Dfa): Dfa {
    Dfa(d.initial, d.accept, map k | k in d.edges :: if k in d.accept then map[] else d.edges[k])
  }

  /** `compileFor`'s lazy loop: clear the transition map of every accepting state. */
  method TrimAccepting(d: Dfa) returns (r: Dfa)
    requires Valid(d)
    ensures r == Trimmed(d) && Valid(r)
    ensures forall s | s in r.accept :: r.edges[s] == map[]
  {
    var edges := d.edges;
    var todo := d.accept;
    while todo != {}
      invariant todo <= d.accept && edges.Keys == d.edges.Keys
      invariant forall k | k in edges :: edges[k] == if k in d.accept - todo then map[] else d.edges[k]
      decreases |todo|
    {
      Inhabited(todo);
      var state :| state in todo;
      edges := edges[state := map[]];
      todo := todo - {state};
    }
    r := Dfa(d.initial, d.accept, edges);
    assert forall k | k in edges :: edges[k] == Trimmed(d).edges[k];
    assert r.edges == Trimmed(d).edges;
  }

  /** No proper prefix of `w` read from `s` ends in an accepting state. */
  ghost predicate NoEarlyAccept(d: Dfa, s: int, w: seq<char>) {
    forall j | 0 <= j < |w| :: Walk(d.edges, s, w[..j]).Some? ==> Walk(d.edges, s, w[..j]).value !in d.accept
  }

  lemma {:induction false} TrimmedWalk(d: Dfa, s: int, w: seq<char>)
    ensures Walk(Trimmed(d).edges, s, w) == if NoEarlyAccept(d, s, w) then Walk(d.edges, s, w) else None
    decreases |w|
  {
    var t := Trimmed(d);
    if |w| > 0 {
      assert w[..0] == [];
      if s in d.accept {
        assert !NoEarlyAccept(d, s, w) by { assert Walk(d.edges, s, w[..0]) == Some(s); }
      } else if s in d.edges && w[0] in d.edges[s] {
        var s' := d.edges[s][w[0]];
        TrimmedWalk(d, s', w[1..]);
        forall j | 1 <= j <= |w| ensures Walk(d.edges, s, w[..j]) == Walk(d.edges, s', w[1..][..j - 1]) {
          assert w[..j][0] == w[0] && w[..j][1..] == w[1..][..j - 1];
        }
        if NoEarlyAccept(d, s', w[1..]) {
          forall j | 0 <= j < |w| && Walk(d.edges, s, w[..j]).Some? ensures Walk(d.edges, s, w[..j]).value !in d.accept {
            if j > 0 {
              assert Walk(d.edges, s, w[..j]) == Walk(d.edges, s', w[1..][..j - 1]);
            }
          }
        } else {
          var j :| 0 <= j < |w[1..]| && Walk(d.edges, s', w[1..][..j]).Some? && Walk(d.edges, s', w[1..][..j]).value in d.accept;
          assert Walk(d.edges, s, w[..j + 1]) == Walk(d.edges, s', w[1..][..j]);
        }
      }
    }
  }

  /** The lazy acceptor accepts a word exactly when the original accepts it and
      no shorter prefix of it was already accepted: it stops at the first match. */
  lemma TrimmedAccepts(d: Dfa, w: seq<char>)
    ensures Accepts(Trimmed(d), w) <==> Accepts(d, w) && NoEarlyAccept(d, d.initial, w)
  {
    TrimmedWalk(d, d.initial, w);
  }
}
