/** The regular-expression syntax tree the engine compiles: the node kinds of
    the `regexp-tree` parser that `diff.js` handles, with each character test
    given as a predicate instead of a JS `RegExp`. */
module RegexAst {
  import opened Base

  /** What a `Char` or `CharacterClass` node tests. `codePoint` is set for a
      literal character (JS `expr.codePoint`), `matches` is the test that
      `new RegExp(re.generate(expr), "us")` performs on one character, and
      `generatesEmpty` says that the class prints as `[]`. */
  datatype CharTest = CharTest(codePoint: Option<char>, matches: char -> bool, generatesEmpty: bool)

  /** A literal really is that character, and `[]` matches nothing. */
  ghost predicate TestWellFormed(t: CharTest) {
    && (t.codePoint.Some? ==> forall c :: t.matches(c) <==> c == t.codePoint.value)
    && (t.generatesEmpty ==> forall c :: !t.matches(c))
  }

  datatype Quantifier = Star | Optional | Plus | Range(from: nat, to: Option<nat>)

  datatype AssertionKind = Caret | Dollar | WordBoundary | NonWordBoundary | Lookahead | Lookbehind

  datatype Node =
    | Char(test: CharTest)
    | CharacterClass(test: CharTest)
    | Group(inner: Option<Node>)
    | Alternative(expressions: seq<Node>)
    | Disjunction(left: Option<Node>, right: Option<Node>)
    | Repetition(body: Node, quantifier: Quantifier)
    | Assertion(kind: AssertionKind, negative: bool, assertion: Option<Node>)
    | Backreference

  /** The repetition bounds `{from, to}` of a quantifier; `None` is unbounded. */
  function Bounds(q: Quantifier): (r: (nat, Option<nat>))
    ensures q.Range? ==> r == (q.from, q.to)
    ensures !q.Range? ==> r.0 <= 1 && (r.1.Some? <==> q.Optional?)
  {
    match q
    case Star => (0, None)
    case Optional => (0, Some(1))
    case Plus => (1, None)
    case Range(from, to) => (from, to)
  }

  /** `\w`: ASCII letters, digits and underscore. */
  predicate IsWordChar(c: char) {
    ('a' <= c <= 'z') || ('A' <= c <= 'Z') || ('0' <= c <= '9') || c == '_'
  }

  /** `.` under the `s` flag: every character. */
  function Dot(): Node { Char(CharTest(None, (c: char) => true, false)) }
  function Word(): Node { Char(CharTest(None, IsWordChar, false)) }
  function NonWord(): Node { Char(CharTest(None, (c: char) => !IsWordChar(c), false)) }

  /** The filler wrapped around lookaround bodies: unanchored, the parser
      reads the pattern `.*` as `.*(.*).*`. */
  function DotStar(): Node {
    Alternative([Repetition(Dot(), Star), Group(Some(Repetition(Dot(), Star))), Repetition(Dot(), Star)])
  }

  /** `(?<!.)`, the expansion of `^`. */
  function StartExpansion(): Node { Assertion(Lookbehind, true, Some(Dot())) }

  /** `(?!.)`, the expansion of `$`. */
  function EndExpansion(): Node { Assertion(Lookahead, true, Some(Dot())) }

  /** `((?<=\w|(?<!.))(?=\W|(?!.))|(?<=\W|(?<!.))(?=\w|(?!.)))`, the expansion of `\b`. */
  function BoundaryExpansion(): Node {
    var behind := (x: Node) => Assertion(Lookbehind, false, Some(Disjunction(Some(x), Some(StartExpansion()))));
    var ahead := (x: Node) => Assertion(Lookahead, false, Some(Disjunction(Some(x), Some(EndExpansion()))));
    Group(Some(Disjunction(
      Some(Alternative([behind(Word()), ahead(NonWord())])),
      Some(Alternative([behind(NonWord()), ahead(Word())])))))
  }

  function MaxOf(xs: seq<nat>): (m: nat)
    ensures forall i | 0 <= i < |xs| :: xs[i] <= m
    ensures |xs| > 0 ==> exists i | 0 <= i < |xs| :: xs[i] == m
    ensures |xs| == 0 ==> m == 0
  {
    if |xs| == 0 then 0
    else
      var rest := MaxOf(xs[1..]);
      assert forall i | 1 <= i < |xs| :: xs[i] == xs[1..][i - 1];
      if xs[0] >= rest then xs[0] else rest
  }

  function OptDepth(e: Option<Node>): nat {
    if e.Some? then AssertionDepth(e.value) else 0
  }

  /** How deeply lookaround compilation nests: the builder compiles an
      assertion's body by a recursive call of the whole pipeline, and `^`, `$`
      and `\b` by compiling their expansions, so this measure (depth of nested
      assertions, counting an expansion's own depth) decreases at each such call. */
  function AssertionDepth(e: Node): nat {
    match e
    case Char(_) => 0
    case CharacterClass(_) => 0
    case Group(x) => OptDepth(x)
    case Alternative(xs) => MaxOf(seq(|xs|, i requires 0 <= i < |xs| => AssertionDepth(xs[i])))
    case Disjunction(l, r) => var a, b := OptDepth(l), OptDepth(r); if a >= b then a else b
    case Repetition(x, _) => AssertionDepth(x)
    case Assertion(k, _, a) =>
      (match k
       case Caret => 2
       case Dollar => 2
       case WordBoundary => 3
       case _ => 1 + OptDepth(a))
    case Backreference => 0
  }

  lemma ExpansionsAreShallower()
    ensures AssertionDepth(StartExpansion()) == 1
    ensures AssertionDepth(EndExpansion()) == 1
    ensures AssertionDepth(BoundaryExpansion()) == 2
    ensures AssertionDepth(DotStar()) == 0
  {
    DotStarFlat();
    var s, e := StartExpansion(), EndExpansion();
    assert AssertionDepth(s) == 1 && AssertionDepth(e) == 1;
    var d1 := Disjunction(Some(Word()), Some(s));
    var d2 := Disjunction(Some(NonWord()), Some(e));
    var d3 := Disjunction(Some(NonWord()), Some(s));
    var d4 := Disjunction(Some(Word()), Some(e));
    assert AssertionDepth(d1) == 1 && AssertionDepth(d2) == 1;
    assert AssertionDepth(d3) == 1 && AssertionDepth(d4) == 1;
    var a1 := [Assertion(Lookbehind, false, Some(d1)), Assertion(Lookahead, false, Some(d2))];
    var a2 := [Assertion(Lookbehind, false, Some(d3)), Assertion(Lookahead, false, Some(d4))];
    assert seq(|a1|, i requires 0 <= i < |a1| => AssertionDepth(a1[i])) == [2, 2];
    assert seq(|a2|, i requires 0 <= i < |a2| => AssertionDepth(a2[i])) == [2, 2];
    assert AssertionDepth(Alternative(a1)) == 2;
    assert AssertionDepth(Alternative(a2)) == 2;
  }

  /** The filler `.*(.*).*` holds no assertion. */
  lemma DotStarFlat()
    ensures AssertionDepth(DotStar()) == 0
  {
    var r := Repetition(Dot(), Star);
    var xs := [r, Group(Some(r)), r];
    assert AssertionDepth(r) == 0 && AssertionDepth(Group(Some(r))) == 0;
    assert seq(|xs|, i requires 0 <= i < |xs| => AssertionDepth(xs[i])) == [0, 0, 0];
  }

  /** The body the builder compiles for a lookaround with child `c`: the
      condition with `.*` on the side away from the cursor. */
  lemma LookaroundBodyShallower(c: Node)
    ensures AssertionDepth(Alternative([c, DotStar()])) == AssertionDepth(c)
    ensures AssertionDepth(Alternative([DotStar(), c])) == AssertionDepth(c)
  {
    DotStarFlat();
    var xs, ys := [c, DotStar()], [DotStar(), c];
    assert seq(|xs|, i requires 0 <= i < |xs| => AssertionDepth(xs[i])) == [AssertionDepth(c), 0];
    assert seq(|ys|, i requires 0 <= i < |ys| => AssertionDepth(ys[i])) == [0, AssertionDepth(c)];
  }

  lemma ChildShallower(xs: seq<Node>, i: nat)
    requires i < |xs|
    ensures AssertionDepth(xs[i]) <= AssertionDepth(Alternative(xs))
  {
    var ds := seq(|xs|, j requires 0 <= j < |xs| => AssertionDepth(xs[j]));
    assert ds[i] == AssertionDepth(xs[i]);
  }
}
