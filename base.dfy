/** Shared vocabulary of the regex-diff model: optional values, results with the
    engine's error kinds, and the canonical keys under which the automaton
    constructions memoise sets of state ids. */
module Base {

  datatype Option<+T> = None | Some(value: T)

  /** Why a compilation fails. */
  datatype Error =
    | Unsupported(message: string)   // a syntax error thrown by the NFA builder
    | Unmatchable                    // the compiled acceptor accepts nothing
    | NoAcceptingEntry               // the cost table holds no accepting state

  datatype Result<+T> = Ok(value: T) | Err(error: Error) {
    predicate IsFailure() { Err? }
    function PropagateFailure<U>(): Result<U> requires Err? { Err(error) }
    function Extract(): T requires Ok? { value }
  }

  /** The naturals below `n`: the finite universe of an id space. */
  function IdsBelow(n: nat): (r: set<nat>)
    ensures forall x: nat :: x in r <==> x < n
  {
    if n == 0 then {} else IdsBelow(n - 1) + {n - 1}
  }

  /** The worklist measure: the unseen part of a finite universe shrinks when
      the seen set grows. */
  lemma SubsetMeasure<T>(u: set<T>, k: set<T>, k': set<T>)
    requires k <= k' <= u
    ensures |u - k'| <= |u - k| && (k' != k ==> |u - k'| < |u - k|)
  {
    var a, b := u - k', u - k;
    assert a <= b;
    assert a + (b - a) == b && a * (b - a) == {};
    if k' != k {
      var x :| x in k' && x !in k;
      assert x in b - a;
    }
  }

  lemma PrefixAfterUpdate<T>(s: seq<T>, k: nat, v: T, n: nat)
    requires n <= k < |s|
    ensures s[k := v][..n] == s[..n]
  {
  }

  lemma PrefixAfterAppend<T>(s: seq<T>, extra: seq<T>, n: nat)
    requires n <= |s|
    ensures (s + extra)[..n] == s[..n]
  {
  }

  /** `m'` keeps every entry of `m`. */
  ghost predicate Extends<K, V>(m: map<K, V>, m': map<K, V>) {
    forall x | x in m :: x in m' && m'[x] == m[x]
  }

  lemma ExtendsTrans<K, V>(m0: map<K, V>, m1: map<K, V>, m2: map<K, V>)
    requires Extends(m0, m1) && Extends(m1, m2)
    ensures Extends(m0, m2)
  {
  }

  /** `k` lists exactly the ids of `x`, each once, in increasing order. */
  ghost predicate IsKey(k: seq<int>, x: set<int>) {
    && (forall i, j | 0 <= i < j < |k| :: k[i] < k[j])
    && (forall e :: e in x <==> e in k)
  }

  /** A non-empty set has a member (by extensionality); called before a
      choice `:|` from a work set. */
  lemma Inhabited(s: set<int>)
    requires s != {}
    ensures exists e :: e in s
  {
    assert (forall e :: e !in s) ==> s == {};
  }

  /** The same for a set of characters. */
  lemma InhabitedChars(s: set<char>)
    requires s != {}
    ensures exists e :: e in s
  {
    assert (forall e :: e !in s) ==> s == {};
  }

  /** The keys a work queue gained since it was `frontier0` are not yet in
      the memo `memo0`. */
  ghost predicate Grown<K, V>(memo0: map<K, V>, frontier0: seq<K>, frontier: seq<K>) {
    && |frontier0| <= |frontier| && frontier[..|frontier0|] == frontier0
    && forall i | |frontier0| <= i < |frontier| :: frontier[i] !in memo0
  }

  lemma GrownBy<K, V>(memo0: map<K, V>, f0: seq<K>, p: K)
    ensures Grown(memo0, f0, f0)
    ensures p !in memo0 ==> Grown(memo0, f0, f0 + [p])
  {
    assert (f0 + [p])[..|f0|] == f0;
  }

  lemma GrownTrans<K, V>(memo0: map<K, V>, memo1: map<K, V>, f0: seq<K>, f1: seq<K>, f2: seq<K>)
    requires Extends(memo0, memo1) && Grown(memo0, f0, f1) && Grown(memo1, f1, f2)
    ensures Grown(memo0, f0, f2)
  {
    assert forall i | 0 <= i < |f1| :: f2[i] == f1[i];
  }

  lemma {:induction false} MinExists(s: set<int>)
    requires s != {}
    ensures exists m :: m in s && forall y | y in s :: m <= y
    decreases |s|
  {
    Inhabited(s);
    var x :| x in s;
    if s != {x} {
      MinExists(s - {x});
      var m :| m in s - {x} && forall y | y in s - {x} :: m <= y;
      var least := if x < m then x else m;
      forall y | y in s ensures least <= y {
        if y != x { assert y in s - {x}; }
      }
      assert least in s;
    } else {
      assert forall y | y in s :: x <= y;
    }
  }

  /** The canonical key of a set of state ids (`goodKey`; also the id list of
      the product key): its members sorted, each once. */
  method GoodKey(x: set<int>) returns (k: seq<int>)
    ensures IsKey(k, x)
  {
    k := [];
    var rest := x;
    while rest != {}
      invariant rest <= x
      invariant forall i, j | 0 <= i < j < |k| :: k[i] < k[j]
      invariant forall i | 0 <= i < |k| :: k[i] in x && k[i] !in rest
      invariant forall i, e | 0 <= i < |k| && e in rest :: k[i] < e
      invariant forall e | e in x :: e in k || e in rest
      decreases |rest|
    {
      MinExists(rest);
      var m :| m in rest && forall y | y in rest :: m <= y;
      k := k + [m];
      rest := rest - {m};
    }
  }

  lemma KeyHeadIsLeast(k: seq<int>, x: set<int>)
    requires IsKey(k, x) && |k| > 0
    ensures forall e | e in x :: k[0] <= e
  {
    forall e | e in x ensures k[0] <= e {
      assert e in k;
      var i :| 0 <= i < |k| && k[i] == e;
      assert i == 0 || k[0] < k[i];
    }
  }

  lemma {:induction false} SortedKeysEqual(k1: seq<int>, k2: seq<int>, x: set<int>)
    requires IsKey(k1, x) && IsKey(k2, x)
    ensures k1 == k2
    decreases |k1|
  {
    assert |k1| > 0 ==> k1[0] in k1 && k1[0] in x && k1[0] in k2;
    assert |k2| > 0 ==> k2[0] in k2 && k2[0] in x && k2[0] in k1;
    if k1 != [] && k2 != [] {
      KeyHeadIsLeast(k1, x);
      KeyHeadIsLeast(k2, x);
      var r1, r2, y := k1[1..], k2[1..], x - {k1[0]};
      assert IsKey(r1, y) by {
        forall e | e in y ensures e in r1 { assert e in k1 && e != k1[0]; }
      }
      assert IsKey(r2, y) by {
        forall e | e in y ensures e in r2 { assert e in k2 && e != k2[0]; }
      }
      SortedKeysEqual(r1, r2, y);
      assert k1 == [k1[0]] + r1 && k2 == [k2[0]] + r2;
    }
  }

  /** Two id sets get the same canonical key exactly when they are equal, so a
      memo keyed by the key string is a memo keyed by the set. */
  lemma KeyInjective(k1: seq<int>, x1: set<int>, k2: seq<int>, x2: set<int>)
    requires IsKey(k1, x1) && IsKey(k2, x2)
    ensures k1 == k2 <==> x1 == x2
  {
    if x1 == x2 {
      SortedKeysEqual(k1, k2, x1);
    }
    if k1 == k2 {
      forall e ensures e in x1 <==> e in x2 {
        if e in x1 {
          assert e in k2;
          var i :| 0 <= i < |k2| && k2[i] == e;
        }
        if e in x2 {
          assert e in k1;
          var i :| 0 <= i < |k1| && k1[i] == e;
        }
      }
    }
  }

  /** The product-state key `a,b1,b2,...` (main node id, then the sorted live
      ids) identifies the pair (main node, live set). */
  lemma ProductKeyInjective(a1: int, k1: seq<int>, b1: set<int>, a2: int, k2: seq<int>, b2: set<int>)
    requires IsKey(k1, b1) && IsKey(k2, b2)
    ensures [a1] + k1 == [a2] + k2 <==> a1 == a2 && b1 == b2
  {
    KeyInjective(k1, b1, k2, b2);
    if [a1] + k1 == [a2] + k2 {
      assert a1 == ([a1] + k1)[0];
      assert k1 == ([a1] + k1)[1..];
      assert k2 == ([a2] + k2)[1..];
    }
  }
}
