/** Alphabet sampling (`addClass`, `_charset`, `charset`): the finite set of
    characters over which every automaton of one compilation is built. It holds
    every character of the input string and, for each character test of the
    pattern, a character that decides the test in the polarity the pattern
    needs, so that the automata can tell the classes apart. */
module Alphabet {
  import opened Base
  import opened RegexAst

  /** Under negation context `negate`, `c` is the kind of character the class
      needs a representative of: one its test accepts, or rejects when negated. */
  predicate Decides(t: CharTest, negate: bool, c: char) {
    t.matches(c) != negate
  }

  /** The code points that are characters (Unicode scalar values). */
  predicate IsScalar(i: int) {
    0 <= i < 0xD800 || 0xE000 <= i < 0x110000
  }

  lemma CharIsScalar(c: char)
    ensures IsScalar(c as int)
  {}

  function AnyChar(c: char): bool { true }

  /** Code point `i` is a character that decides `t` and passes the filter `ok`. */
  predicate Candidate(t: CharTest, negate: bool, ok: char -> bool, i: int) {
    IsScalar(i) && Decides(t, negate, i as char) && ok(i as char)
  }

  /** The ordinary candidates tried before any scan. */
  const Picky: seq<char> := ['x', '#', '0', ' ']

  /** The printable scan covers code points 33 to 0xE01EF. */
  const WideFrom: int := 33
  const WideTo: int := 0xE01F0

  /** The exclusive bound of the last scan of `addClass` as written (diff.js:40). */
  const FullToAsWritten: int := 0x10FFFF
  /** The bound the last scan needs to try every character. */
  const FullTo: int := 0x110000

  /** The first code point in [lo, hi) that is a candidate, if any. */
  method Scan(t: CharTest, negate: bool, ok: char -> bool, lo: int, hi: int) returns (found: Option<char>)
    requires 0 <= lo
    ensures found.Some? ==> lo <= found.value as int < hi && Candidate(t, negate, ok, found.value as int)
    ensures found.Some? ==> forall i | lo <= i < found.value as int :: !Candidate(t, negate, ok, i)
    ensures found.None? ==> forall i | lo <= i < hi :: !Candidate(t, negate, ok, i)
  {
    var i := lo;
    while i < hi
      invariant lo <= i
      invariant forall j | lo <= j < i :: !Candidate(t, negate, ok, j)
      decreases hi - i
    {
      if IsScalar(i) {
        var c := i as char;
        if Decides(t, negate, c) && ok(c) {
          return Some(c);
        }
      }
      i := i + 1;
    }
    return None;
  }

  /** `r` is `s` with at most one character added. */
  ghost predicate AtMostOneNew(s: set<char>, r: set<char>) {
    r == s || exists c :: c !in s && r == s + {c}
  }

  /** What one `addClass` call does whose last scan stops below `fullTo`. */
  ghost predicate AddClassOutcome(t: CharTest, s: set<char>, negate: bool, fullTo: int, r: set<char>) {
    && AtMostOneNew(s, r)
    && (!negate && t.codePoint.Some? ==> r == s + {t.codePoint.value})
    && (!(!negate && t.codePoint.Some?) ==>
          && (t.generatesEmpty ==> r == s)
          && ((exists c :: c in s && Decides(t, negate, c)) ==> r == s)
          && (forall c | c in r - s :: Decides(t, negate, c) && c as int < fullTo)
          && ((!t.generatesEmpty && exists i | 0 <= i < fullTo :: Candidate(t, negate, AnyChar, i))
                ==> exists c :: c in r && Decides(t, negate, c)))
  }

  /** `addClass` with its last scan bounded by `fullTo`. */
  method AddClassUpTo(t: CharTest, s: set<char>, negate: bool, visible: char -> bool, fullTo: int)
    returns (r: set<char>)
    requires WideTo <= fullTo
    ensures AddClassOutcome(t, s, negate, fullTo, r)
  {
    if !negate && t.codePoint.Some? {
      r := s + {t.codePoint.value};
      assert AtMostOneNew(s, r) by {
        if t.codePoint.value !in s { assert t.codePoint.value !in s && r == s + {t.codePoint.value}; }
        else { assert r == s; }
      }
      return;
    }
    if t.generatesEmpty {
      return s;
    }
    var rest := s;
    while rest != {}
      invariant rest <= s
      invariant forall c | c in s - rest :: !Decides(t, negate, c)
      decreases |rest|
    {
      InhabitedChars(rest);
      var c :| c in rest;
      if Decides(t, negate, c) {
        return s;
      }
      rest := rest - {c};
    }
    assert !exists c :: c in s && Decides(t, negate, c);
    for k := 0 to |Picky|
      invariant forall j | 0 <= j < k :: !Decides(t, negate, Picky[j])
    {
      if Decides(t, negate, Picky[k]) {
        r := s + {Picky[k]};
        assert Picky[k] !in s && r == s + {Picky[k]};
        return;
      }
    }
    var found := Scan(t, negate, visible, WideFrom, WideTo);
    if found.Some? {
      r := s + {found.value};
      assert found.value !in s && r == s + {found.value};
      return;
    }
    found := Scan(t, negate, AnyChar, 0, fullTo);
    if found.Some? {
      r := s + {found.value};
      assert found.value !in s && r == s + {found.value};
      return;
    }
    // Nothing in the scanned range decides the class: give up.
    return s;
  }

  /** `addClass` as the source writes it: the last scan stops before U+10FFFF. */
  method AddClassAsWritten(t: CharTest, s: set<char>, negate: bool, visible: char -> bool)
    returns (r: set<char>)
    ensures AddClassOutcome(t, s, negate, FullToAsWritten, r)
  {
    r := AddClassUpTo(t, s, negate, visible, FullToAsWritten);
  }

  /** `addClass` with the last scan covering every character, as the comment
      after the loop ("`[^\0-\u{10ffff}]` is `[]`") intends. */
  method AddClass(t: CharTest, s: set<char>, negate: bool, visible: char -> bool)
    returns (r: set<char>)
    ensures AddClassOutcome(t, s, negate, FullTo, r)
  {
    r := AddClassUpTo(t, s, negate, visible, FullTo);
  }

  /** The class `[\u{10FFFF}]`: a character class, not a literal, so it takes
      the scanning path. */
  function OnlyLastCodePoint(): CharTest {
    CharTest(None, (c: char) => c == '\U{10FFFF}', false)
  }

  /** As written, sampling `[\u{10FFFF}]` into an empty alphabet adds nothing,
      although U+10FFFF decides the class: a pattern made of that class with an
      input string that lacks the character compiles to an automaton with no
      transition for it. */
  lemma LastCodePointMissedAsWritten(r: set<char>)
    requires AddClassOutcome(OnlyLastCodePoint(), {}, false, FullToAsWritten, r)
    ensures r == {}
    ensures Decides(OnlyLastCodePoint(), false, '\U{10FFFF}')
  {
    var t := OnlyLastCodePoint();
    assert forall c | c in r :: c == '\U{10FFFF}' && c as int < FullToAsWritten;
  }

  /** With the corrected bound, a class that any character decides always gets
      a deciding character. */
  lemma FullScanSamplesEverySatisfiableClass(t: CharTest, s: set<char>, negate: bool, r: set<char>, c: char)
    requires AddClassOutcome(t, s, negate, FullTo, r)
    requires !(!negate && t.codePoint.Some?) && !t.generatesEmpty
    requires Decides(t, negate, c)
    ensures exists d :: d in r && Decides(t, negate, d)
  {
    CharIsScalar(c);
    assert Candidate(t, negate, AnyChar, c as int);
  }

  /** The sampling requirement for one character test under negation context
      `negate`: a literal is present, and every other test that some character
      decides is decided by some member of the alphabet. */
  ghost predicate ClassSampled(t: CharTest, negate: bool, r: set<char>) {
    && (!negate && t.codePoint.Some? ==> t.codePoint.value in r)
    && ((!(!negate && t.codePoint.Some?) && !t.generatesEmpty && exists c :: Decides(t, negate, c))
          ==> exists c :: c in r && Decides(t, negate, c))
  }

  ghost predicate OptSampled(e: Option<Node>, negate: bool, r: set<char>) {
    e.Some? ==> Sampled(e.value, negate, r)
  }

  /** Every character test `_charset` visits in `e`, in the negation context it
      visits it with, is sampled in `r`. */
  ghost predicate Sampled(e: Node, negate: bool, r: set<char>) {
    match e
    case Char(t) => ClassSampled(t, negate, r)
    case CharacterClass(t) => ClassSampled(t, negate, r)
    case Group(x) => OptSampled(x, negate, r)
    case Alternative(xs) => forall i | 0 <= i < |xs| :: Sampled(xs[i], negate, r)
    case Disjunction(a, b) => OptSampled(a, negate, r) && OptSampled(b, negate, r)
    case Repetition(x, _) => Sampled(x, negate, r)
    case Assertion(k, neg, a) =>
      if k != WordBoundary && neg then OptSampled(a, !negate, r) else OptSampled(a, negate, r)
    case Backreference => true
  }

  /** `e` contains a `\b` assertion. */
  predicate HasWordBoundary(e: Node) {
    match e
    case Char(_) => false
    case CharacterClass(_) => false
    case Group(x) => x.Some? && HasWordBoundary(x.value)
    case Alternative(xs) => exists i | 0 <= i < |xs| :: HasWordBoundary(xs[i])
    case Disjunction(a, b) => (a.Some? && HasWordBoundary(a.value)) || (b.Some? && HasWordBoundary(b.value))
    case Repetition(x, _) => HasWordBoundary(x)
    case Assertion(k, _, a) => k == WordBoundary || (a.Some? && HasWordBoundary(a.value))
    case Backreference => false
  }

  function SumOf(xs: seq<nat>): nat {
    if |xs| == 0 then 0 else SumOf(xs[..|xs| - 1]) + xs[|xs| - 1]
  }

  function OptBudget(e: Option<Node>): nat {
    if e.Some? then Budget(e.value) else 0
  }

  /** How many characters `_charset` may add for `e`: one per character test
      and two per `\b`. */
  function Budget(e: Node): nat {
    match e
    case Char(_) => 1
    case CharacterClass(_) => 1
    case Group(x) => OptBudget(x)
    case Alternative(xs) => SumOf(seq(|xs|, i requires 0 <= i < |xs| => Budget(xs[i])))
    case Disjunction(a, b) => OptBudget(a) + OptBudget(b)
    case Repetition(x, _) => Budget(x)
    case Assertion(k, _, a) => (if k == WordBoundary then 2 else 0) + OptBudget(a)
    case Backreference => 0
  }

  lemma ClassSampledGrows(t: CharTest, negate: bool, r: set<char>, r': set<char>)
    requires ClassSampled(t, negate, r) && r <= r'
    ensures ClassSampled(t, negate, r')
  {
    if !(!negate && t.codePoint.Some?) && !t.generatesEmpty && (exists c :: Decides(t, negate, c)) {
      var c :| c in r && Decides(t, negate, c);
      assert c in r';
    }
  }

  /** Adding characters never undoes sampling. */
  lemma {:induction false} SampledGrows(e: Node, negate: bool, r: set<char>, r': set<char>)
    requires Sampled(e, negate, r) && r <= r'
    ensures Sampled(e, negate, r')
    decreases e
  {
    match e
    case Char(t) => ClassSampledGrows(t, negate, r, r');
    case CharacterClass(t) => ClassSampledGrows(t, negate, r, r');
    case Group(x) => if x.Some? { SampledGrows(x.value, negate, r, r'); }
    case Alternative(xs) =>
      forall i | 0 <= i < |xs| ensures Sampled(xs[i], negate, r') {
        SampledGrows(xs[i], negate, r, r');
      }
    case Disjunction(a, b) =>
      if a.Some? { SampledGrows(a.value, negate, r, r'); }
      if b.Some? { SampledGrows(b.value, negate, r, r'); }
    case Repetition(x, _) => SampledGrows(x, negate, r, r');
    case Assertion(k, neg, a) =>
      if a.Some? {
        SampledGrows(a.value, if k != WordBoundary && neg then !negate else negate, r, r');
      }
    case Backreference =>
  }

  lemma AddClassSamples(t: CharTest, s: set<char>, negate: bool, r: set<char>)
    requires AddClassOutcome(t, s, negate, FullTo, r)
    ensures ClassSampled(t, negate, r) && s <= r && |r| <= |s| + 1
  {
    if !(!negate && t.codePoint.Some?) && !t.generatesEmpty && (exists c :: Decides(t, negate, c)) {
      var c :| Decides(t, negate, c);
      FullScanSamplesEverySatisfiableClass(t, s, negate, r, c);
    }
    if r != s {
      var c :| c !in s && r == s + {c};
    }
  }

  method CollectOpt(e: Option<Node>, negate: bool, s: set<char>, visible: char -> bool)
    returns (r: set<char>)
    ensures s <= r && |r| <= |s| + OptBudget(e)
    ensures OptSampled(e, negate, r)
    ensures e.Some? && HasWordBoundary(e.value) ==> ' ' in r && 'x' in r
    decreases e, 1
  {
    r := s;
    if e.Some? {
      r := CollectCharset(e.value, negate, s, visible);
    }
  }

  /** `_charset`: walk the tree in pre-order, sampling every character test;
      a negative lookaround flips the negation context for its body, and `\b`
      adds a space and a word character. */
  method CollectCharset(e: Node, negate: bool, s: set<char>, visible: char -> bool)
    returns (r: set<char>)
    ensures s <= r && |r| <= |s| + Budget(e)
    ensures Sampled(e, negate, r)
    ensures HasWordBoundary(e) ==> ' ' in r && 'x' in r
    decreases e, 0
  {
    match e
    case Char(t) =>
      r := AddClass(t, s, negate, visible);
      AddClassSamples(t, s, negate, r);
    case CharacterClass(t) =>
      r := AddClass(t, s, negate, visible);
      AddClassSamples(t, s, negate, r);
    case Group(x) =>
      r := CollectOpt(x, negate, s, visible);
    case Alternative(xs) =>
      var budgets := seq(|xs|, i requires 0 <= i < |xs| => Budget(xs[i]));
      r := s;
      for i := 0 to |xs|
        invariant s <= r && |r| <= |s| + SumOf(budgets[..i])
        invariant forall j | 0 <= j < i :: Sampled(xs[j], negate, r)
        invariant (exists j | 0 <= j < i :: HasWordBoundary(xs[j])) ==> ' ' in r && 'x' in r
      {
        var before := r;
        r := CollectCharset(xs[i], negate, r, visible);
        forall j | 0 <= j < i ensures Sampled(xs[j], negate, r) {
          SampledGrows(xs[j], negate, before, r);
        }
        assert budgets[..i + 1][..i] == budgets[..i];
      }
      assert budgets[..|xs|] == budgets;
    case Disjunction(a, b) =>
      var mid := CollectOpt(a, negate, s, visible);
      r := CollectOpt(b, negate, mid, visible);
      if a.Some? { SampledGrows(a.value, negate, mid, r); }
    case Repetition(x, _) =>
      r := CollectCharset(x, negate, s, visible);
    case Assertion(k, neg, a) =>
      if k == WordBoundary {
        var added := s + {' ', 'x'};
        assert |added| <= |s| + 2 by {
          assert added == (s + {' '}) + {'x'};
        }
        r := CollectOpt(a, negate, added, visible);
      } else if neg {
        r := CollectOpt(a, !negate, s, visible);
      } else {
        r := CollectOpt(a, negate, s, visible);
      }
    case Backreference =>
      r := s;
  }

  /** `charset`: the characters of the input string plus the samples the
      pattern needs. `visible` is the `\P{C}` test (not a control, format,
      surrogate, private-use or unassigned code point). */
  method Charset(e: Node, input: string, visible: char -> bool) returns (r: set<char>)
    ensures forall i | 0 <= i < |input| :: input[i] in r
    ensures Sampled(e, false, r)
    ensures HasWordBoundary(e) ==> ' ' in r && 'x' in r
    ensures |r| <= |set c | c in input| + Budget(e)
  {
    var s := set c | c in input;
    r := CollectCharset(e, false, s, visible);
  }
}
