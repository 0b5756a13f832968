# regexdiff, modelled in Dafny

regexdiff takes a regular expression and a string. It shows the cheapest edit
that turns the string into one the expression matches: delete any input
character for 1, insert a string of length `L` for `L + 0.1`, or keep a
character for free. Its engine is `diff.js`:

- **Alphabet.** `addClass`, `_charset` and `charset` sample a finite alphabet:
  every input character, plus one representative for every character test of
  the pattern.
- **NFA.** `toNfa` builds a Thompson NFA over that alphabet, one fragment per
  syntax node. Lookarounds become assertion moves that carry a DFA of the
  assertion's body.
- **Compilation.** `compile` removes the assertions in two product passes
  (`intersect`, forward and then backward). Two subset constructions
  (`toDfaRev`) with `dfaToNfa` between them then give a forward DFA. A
  negative lookaround complements its body first (`negate`).
- **Lazy mode.** `compileFor` clears the moves of accepting states, and rejects
  a pattern whose DFA accepts nothing.
- **Diff.** `diff` computes a shortest literal path between every pair of DFA
  states (`allPairsShortestPath`). It then runs a dynamic program over the
  input: per state, the cheapest edit script so far, with `improve` and
  `doInsertions`. Finally it picks the cheapest accepting entry.

## How the program is modelled

The model follows the program module by module.

- **`Base`** holds Option, Result and the error kinds, and the canonical
  set keys of `goodKey` and of the product key.
- **`RegexAst`** is the syntax tree the compiler consumes.
- **`Alphabet`** is alphabet sampling.
- **`Dfa`** is the DFA value, `newState`, `negate` and the lazy trim.
- **`Nfa`** is the arena: a class whose fields are the states' `forward` and
  `back` lists and the table of transition records. These are the JS objects
  that `edge`, `nfaAppend` and `nfaClone` update in place.
- **`Product`** is `intersect`.
- **`Subset`** is `toDfaRev`.
- **`Rebuild`** is `dfaToNfa`.
- **`Compiler`** is `toNfa`, `compile` and `compileFor`.
- **`Diff`** is the diff engine and `diffFor`.

Representation choices:

- **Loops.** Every JS loop is a `while` loop with its invariant.
- **Worklist loops.** Their invariants are packaged as one predicate, with a
  step method per iteration.
- **State numbering.** JS state objects are numbered by their `id`, which is
  their index in the arena. The global counters `id` and `n` are the arena's
  size and a `Dfa.Counter` object.
- **Costs** are integers scaled by ten: a deletion costs 10, and an insertion
  of `w` costs `10 * |w| + 1`.
- **Iteration order.** The iteration order of JS `Map`/`Set` is left open, and
  every proof holds for any order. The one exception is the live iteration of
  `doInsertions`: entries added during the loop are visited too, so the model
  keeps the table's key order (`Diff.Table.order`).

The main results:

- **Diff engine.** `Diff.Diff` returns an edit script that reads the whole
  input and whose output the DFA accepts. No script with those two properties
  costs less. When it reports that no accepting entry was found, no script
  reads the input into an accepted output. `Diff.DiffFor` lifts this to a
  parsed pattern; in lazy mode the acceptor is the trimmed DFA.
- **Subset construction.** `Subset.SubsetAccepts`: the DFA of `toDfaRev`
  accepts `w` exactly when the subset automaton of the reversed NFA graph does.
- **Reversal.** `Compiler.Reversed`: `toDfaRev(dfaToNfa(d))` accepts
  exactly the reversed words of `d`. This combines `Rebuild.RebuiltReversed`
  and `Subset.SubsetAccepts`. The lookbehind bodies depend on it.
- **`negate`.** It is a complement over the alphabet (`Dfa.ComplementLaw`).
  Complementing twice restores acceptance (`Dfa.DoubleComplement`).
- **Lazy mode.** It stops at the first match (`Dfa.TrimmedAccepts`).
- **Errors.** The compiler reports as an error exactly the patterns `diff.js`
  throws on, with the same message (`Compiler.ToNfa`, `Compiler.Compile`).
- **Alphabet.** The alphabet contains the input and samples every class of the
  pattern in the polarity it is used in (`Alphabet.Charset`).

## Model

| member | source | states |
|---|---|---|
| Alphabet.Scan | diff.js:32-46 | The first code point in the range that decides the class and passes the filter; `None` only when no code point in the range does. |
| Alphabet.AddClassUpTo | diff.js:8-48 | The set grows by at most one character. A literal outside negation adds itself. A class printed `[]`, or one already decided by a member, adds nothing. Any new character decides the class and lies below the last scan's bound. If some code point below that bound decides the class, the result holds a deciding character. |
| Alphabet.AddClassAsWritten | diff.js:8-48 | `addClass` as written: the same outcome with the last scan (line 40) stopping before U+10FFFF. |
| Alphabet.AddClass | diff.js:8-48 | `addClass` with the last scan covering every character, as the comment on line 47 intends. |
| Alphabet.LastCodePointMissedAsWritten | diff.js:40 | For the class `[\u{10FFFF}]`, the as-written scan adds nothing, although U+10FFFF decides the class. |
| Alphabet.FullScanSamplesEverySatisfiableClass | diff.js:39-47 | With the corrected bound, every class that some character decides gets a deciding character in the alphabet. |
| Alphabet.AddClassSamples | diff.js:8-48 | After `addClass`, the class is sampled, the old set is kept, and at most one character is added. |
| Alphabet.SampledGrows | diff.js:50-69 | Adding characters never undoes sampling, so later `addClass` calls keep earlier classes sampled. |
| Alphabet.CollectCharset | diff.js:50-69 | `_charset` keeps the old set. It samples every character test of the tree in its polarity (flipped under a negative lookaround). A `\b` adds a space and `x`. It adds at most one character per test. |
| Alphabet.CollectOpt | diff.js:63-65 | The same for an optional node, here the body of a negative lookaround. |
| Alphabet.Charset | diff.js:71-75 | The alphabet contains every character of the input, samples every class of the pattern, holds a space and `x` when the pattern has `\b`, and adds at most one character per test. |
| Base.GoodKey | diff.js:350-352 | The key of an id set lists its members sorted, each exactly once. |
| Base.KeyInjective | diff.js:350-352 | Two id sets get equal keys exactly when the sets are equal, so memos keyed by the key string are keyed by the set. |
| Base.SortedKeysEqual | diff.js:350-352 | A set has only one canonical key. |
| Base.ProductKeyInjective | diff.js:291-292 | The product key (main node id, then the sorted live ids) is equal exactly when both the node and the live set are equal. |
| RegexAst.Bounds | diff.js:172-191 | A `Range` repeats `from` to `to` times. `*`, `?` and `+` start at most at 1, and only `?` is bounded. |
| RegexAst.ExpansionsAreShallower | diff.js:228-236 | The expansions of `^` and `$` nest assertions one deep, and that of `\b` two deep, so compiling them terminates. |
| RegexAst.LookaroundBodyShallower | diff.js:240-247 | Padding a lookaround body with `.*` does not deepen its assertion nesting. |
| Compiler.FirstSome | diff.js:153-159 | No error is found in a list exactly when no entry has one. |
| Compiler.ExpansionsCompile | diff.js:228-236 | The expansions of `^`, `$` and `\b`, and the filler `.*`, contain no unsupported construct. |
| Compiler.PaddedProblem | diff.js:240-247 | A lookaround body padded with `.*` fails exactly as the body does. |
| Compiler.Eps | diff.js:134-139 | `edge(x, y)` without a label: the record `(x, y)` is appended to the table, and its index to `x`'s forward list and to `y`'s back list. No other list changes. |
| Compiler.Spread | diff.js:163-165 | A fresh node whose forward list is exactly two new unlabelled records, to `x` and then to `y`. Their back lists gain those records, and nothing else changes. |
| Compiler.Gather | diff.js:166-168 | A fresh node whose back list is exactly two new unlabelled records, from `x` and then from `y`. Their forward lists gain those records, and nothing else changes. |
| Compiler.Fork | diff.js:160-170 | The disjunction's fragment runs from a fresh start to a fresh end. Exactly four unlabelled records are appended: start to each side's start, then each side's end to the end. Every list is stated: the start's forward list and the end's back list are those pairs, each side's start and end gain one record each, and nodes older than both children keep their lists. |
| Compiler.Id | diff.js:94-99 | `idNfa`: two fresh nodes and one unlabelled record between them, which is the start's whole forward list and the end's whole back list. |
| Compiler.Join | diff.js:113-119 | `nfaAppend`: `nfa.end` takes over `other.start`'s forward list, exactly those records get `nfa.end` as their source, back lists are unchanged, and the fragment ends at `other.end`. |
| Compiler.Copy | diff.js:121-132 | `nfaClone`: each reached node gets a distinct fresh copy, and each copied row has one move per move of the original, with the same label and assertion, to the copy of its target. Older records are kept, and the copy of the end has no moves. |
| Compiler.Class | diff.js:101-111 | `nfaClass`: two fresh nodes whose moves go from start to end, one per alphabet character the test accepts and with no assertion. |
| Compiler.OrId | diff.js:150-152 | `child?.nfa ?? idNfa()`: the child's fragment with nothing changed, or two fresh nodes with exactly one new unlabelled record between them. |
| Compiler.ToNfa | diff.js:141-258 | `toNfa` fails exactly when the pattern has a back-reference or `\B`. The message is that of the first such construct in visiting order. Otherwise the result is a fragment of new nodes with a move-free end, earlier nodes keep their lists, and the assertion invariant holds. A character or class is exactly the `nfaClass` fragment of its test. An empty group adds exactly one unlabelled record between two fresh nodes. |
| Compiler.SubNfa | diff.js:150-152 | The fragment of an optional child: present exactly when the child is, failing exactly when it fails. |
| Compiler.AlternativeNfa | diff.js:153-159 | A concatenation fails exactly when one member fails, and otherwise is a fragment of new nodes. With no members it is the fresh `idNfa` fragment. |
| Compiler.JoinAll | diff.js:153-159 | A fresh `idNfa` fragment with each child appended in order. The new lists are `Linked`: the fresh start keeps its one record, and each seam takes over its child's start list. The seam is the fresh end for the first child and the previous child's end after that. The records are `Chained`: the records of each child's start list now leave from its seam. The back lists gain only the `idNfa` record. The fragment ends at the last child's end, or at the fresh end when there are no children. |
| Compiler.JoinStep | diff.js:155-157 | One `nfaAppend` of the next child takes the loop state `Joining` from `k` children to `k + 1`. |
| Compiler.JoiningStep | diff.js:155-157 | The append moves the chain's end to the child's end. Only the seam's list changes, and only the records of the child's start list are re-sourced. |
| Compiler.DisjunctionNfa | diff.js:160-170 | An alternation fails exactly when a side fails, left first, and otherwise is a fragment of new nodes. |
| Compiler.DisjPost | diff.js:160-170 | The disjunction's fragment is the two newest nodes. The last four records are the fork's moves around the two sides. Each side is its child's fragment when the child is present. Otherwise it is a fresh `idNfa` pair, and its one unlabelled record lies just before the fork's four, left before right. Older records are kept. |
| Compiler.Sides | diff.js:161-162 | Each side of a disjunction is its child's fragment when present. Otherwise it is `idNfa`'s fresh pair, with its single unlabelled record appended, the left side's first. Nothing else is appended. |
| Compiler.RepetitionNfa | diff.js:171-216 | A repetition fails exactly when its body does, and otherwise is a fragment of new nodes. |
| Compiler.Repeat | diff.js:194-196 | The chain keeps its start. With `from = 0` it is unchanged; otherwise its end moves to a later node. |
| Compiler.CopyJoin | diff.js:194-201 | Appending a clone of the body keeps the chain a fragment from the same start, ending at a later node. Nodes before the chain keep their lists. |
| Compiler.Ranged | diff.js:197-205 | One saved end per optional clone: `to - from` of them when `from < to`, the first being the chain's end before the loop. Each differs from the final end. The last records appended are one unlabelled move from each saved end, in order, to the final end. The chain keeps its start. |
| Compiler.Converge | diff.js:203-205 | Exactly one unlabelled record per saved end, in order, from that end to the final end. Older records are kept. |
| Compiler.Starred | diff.js:206-214 | Exactly four unlabelled records are appended: body end to body start, then the new start's two moves, to the new end and to the body start, which `nfaAppend` re-sources onto the chain's end, and body end to the new end. The fragment runs from the chain's start to the new end. |
| Compiler.Bypass | diff.js:207-212 | Four unlabelled records are appended: body end to body start, then two fresh nodes where the start moves to the end and to the body start, and the body end moves to the end. The start's forward list is its two moves and the end has none. |
| Compiler.AssertionNfa | diff.js:217-252 | `^`, `$` and `\b` compile their expansions. `\B` fails with `Unsupported assertion: \B`. A lookaround fails exactly when its body does. The result is a fragment of new nodes. |
| Compiler.Lookaround | diff.js:240-251 | A lookaround fails exactly when its body does. Otherwise the newest record is one assertion move from `start` to `end`, reversed for a lookbehind. On every word over the alphabet its body accepts exactly when the padded body's acceptor `fwd` accepts the word (reversed for a lookbehind with a body), negated for a negative lookaround. |
| Compiler.LookBody | diff.js:240-247 | The padded body compiles to a valid DFA `fwd`, failing exactly when the body does. For a lookbehind with a body the result accepts exactly the reversals of the words `fwd` accepts; otherwise it is `fwd`. Its states are numbered in this call's range. |
| Compiler.Reversed | diff.js:244 | The DFA of `toDfaRev(dfaToNfa(d))` is valid, numbered in a fresh range, and accepts `w` exactly when `d` accepts `w` reversed. |
| Compiler.Place | diff.js:248-250 | One record from `start` to `end` carrying the assertion `{rev, body}` is appended, and its index to `start`'s forward list and `end`'s back list. `body` is `d`, or for a negative lookaround the complement of `d` over the alphabet (`Dfa.IsComplement`). The fragment is `(start, end)`. |
| Compiler.Compile | diff.js:428-430 | `compile` fails exactly as `toNfa` does, with its message. Otherwise it yields a valid DFA numbered during this call, which accepts `w` exactly when the subset automaton of the second product pass's graph, read backwards from its final node, accepts `w` reversed. |
| Compiler.Passes | diff.js:428-430 | The two `intersect` passes, then `toDfaRev`, `dfaToNfa` and `toDfaRev`, give a valid DFA on fresh numbers. It accepts `w` exactly when the graph of the second pass, read backwards from that pass's final node, accepts `w` reversed. |
| Compiler.CompileFor | diff.js:432-441 | The alphabet holds the input. The compiler's errors pass through. An acceptor with no accepting state is rejected. Otherwise the result is the compiled DFA, trimmed in lazy mode, where accepting states then have no moves. |
| Dfa.Counter.constructor | diff.js:340 | The DFA state counter starts at 0. |
| Dfa.NewState | diff.js:341-344 | `newState` returns the counter's value, bumps the counter, and adds an empty row for the new state. |
| Dfa.CompleteRow | diff.js:419-421 | A row gets a move to the sink on every alphabet character it lacks, and keeps its own moves. |
| Dfa.CompleteStates | diff.js:418-423 | Every row is completed, and the new accept set is exactly the states that were not accepting. |
| Dfa.Negate | diff.js:412-426 | `negate` adds a fresh accepting sink that loops on every character. The result is the complement of the input over the alphabet and a valid DFA. |
| Dfa.ComplementShape | diff.js:412-426 | A complement is total over the alphabet, keeps every old move, has the sink looping and accepting, and flips the acceptance of every state. |
| Dfa.ComplementLaw | diff.js:412-426 | On words over the alphabet, the negated DFA accepts exactly the words the original rejects. |
| Dfa.DoubleComplement | diff.js:412-426 | Negating twice restores acceptance on every word over the alphabet. |
| Dfa.TrimAccepting | diff.js:434-438 | The lazy loop clears the moves of every accepting state and keeps the DFA valid. |
| Dfa.TrimmedWalk | diff.js:434-438 | A walk in the trimmed DFA is the original walk when no proper prefix along it reached an accepting state, and fails otherwise. |
| Dfa.TrimmedAccepts | diff.js:434-438 | The lazy DFA accepts a word exactly when the original accepts it and no shorter prefix was already accepted. |
| Nfa.Over | diff.js:274-289 | `over(x, y, rev)` is the fragment whose `begin` is `x` and whose `final` is `y` in direction `rev`. |
| Nfa.ArcsOf | diff.js:282-285 | The records of a list, seen in one direction, one arc per record and in order. |
| Nfa.Arena.Edges | diff.js:282-285 | `edges(x, rev)` lists one arc per record of `x`'s forward or back list, each ending at a state of the arena. |
| Nfa.Arena.constructor | diff.js:89 | The arena starts with no states and no transitions. |
| Nfa.Arena.Empty | diff.js:90-92 | `empty` allocates the next state number with empty lists and changes nothing else. |
| Nfa.Arena.Edge | diff.js:134-139 | `edge` appends one record, with the endpoints swapped when `rev`, to the source's forward list and the target's back list; every other list is unchanged. |
| Nfa.Arena.IdNfa | diff.js:94-99 | `idNfa` is two fresh states and one epsilon record between them. |
| Nfa.Arena.NfaClass | diff.js:101-111 | `nfaClass` is two fresh states with one move for exactly the alphabet characters the class accepts. |
| Nfa.Arena.ClassEdge | diff.js:105-109 | One accepted character adds its move to the class fragment. |
| Nfa.Arena.Append | diff.js:113-119 | `nfaAppend`: `nfa.end` takes over the forward list of `other.start`, those records now leave `nfa.end`, and the fragment ends at `other.end`. |
| Nfa.Redirected | diff.js:114-116 | Re-sourcing changes exactly the `from` of the listed records. |
| Nfa.LooksRedirected | diff.js:114-116 | Re-sourcing records leaves the set of assertions unchanged. |
| Nfa.Arena.GetNode | diff.js:264-272 | `getState` with `idGet`: a known key returns its node and changes nothing; a new key gets the next fresh node and is pushed on the frontier once. |
| Nfa.Arena.CopyRow | diff.js:127-129 | The copy of a popped state gets one move per move of the original, with the same label and assertion, to the copy of its target. |
| Nfa.Arena.DrainClone | diff.js:124-130 | When the worklist is empty, every popped state has its row copied, and the original graph is unchanged. |
| Nfa.Arena.Clone | diff.js:121-132 | `nfaClone` maps every state reached from `nfa.start` to a fresh copy. Each row is copied move for move, except a row of `nfa.end` that was never popped, whose copy has no moves. The old graph and records are kept. |
| Product.Advance | diff.js:322-330 | A character move survives exactly when every live state moves on it. It then carries the set of their targets. |
| Product.MergeEdges | diff.js:316 | The shared table gains the body's rows. |
| Product.MergeAccept | diff.js:317 | The shared accept set gains the body's accepting states. |
| Product.TableClosed | diff.js:315-318 | The union of the merged bodies is closed: every move ends at a merged state. |
| Product.AcceptingByTables | diff.js:304 | A product state is marked accepting by the partial accept set exactly when its main node is the end and all its live states accept in their bodies. |
| Product.AdvanceByTables | diff.js:323-328 | Advancing through the partial table is the same as advancing through the union of all bodies. |
| Product.BuildArc | diff.js:307-331 | One move of the popped state is decided and added as `Expected` says. |
| Product.BuildRow | diff.js:307-331 | The popped state's row is exactly the expected moves. Each assertion in the pass's direction becomes an epsilon that adds the body's initial state. Other epsilons keep their assertion. A character move is kept when all live states move, carrying their targets. |
| Product.ProductStep | diff.js:301-332 | One iteration keeps the loop invariant and either discovers a state or shrinks the frontier. |
| Product.DrainProduct | diff.js:301-332 | When the frontier is empty, every discovered product state has its row built. |
| Product.StartPass | diff.js:295-300 | The memo starts with the start product state (`begin`, no live states) on one fresh node. |
| Product.FinishPass | diff.js:333-337 | A fresh final node gets an epsilon from exactly the accepting product states. |
| Product.Intersect | diff.js:294-338 | `intersect` numbers every product state with a distinct fresh node, starting from `begin` with no live states. Each row is exactly the expected moves, with an epsilon to the fresh move-free final node exactly when the state is accepting. The old graph is kept. |
| Subset.Enumerate | diff.js:362 | `[...da]` lists exactly the members of the set. |
| Subset.CloseSet | diff.js:361-385 | The inner loop computes the epsilon-closure of the popped set backwards, and its character moves grouped by character. The set's state becomes accepting exactly when the closure holds the end. |
| Subset.ClosureUnique | diff.js:365-385 | The closure of a set is unique. |
| Subset.JoinGet | diff.js:264-272 | `joinGet`: a known set returns its DFA state and changes nothing. A new set gets `newState` and is queued once. |
| Subset.DrawRow | diff.js:386-388 | The popped state's row maps each character to the state of its target set. |
| Subset.DfaStep | diff.js:360-389 | One iteration keeps the invariant and either discovers a set or shrinks the frontier. |
| Subset.ToDfaRev | diff.js:354-391 | `toDfaRev` gives a valid DFA on fresh state numbers. Each state is the closure of a set, its row is the moves of that closure, and it accepts exactly when the closure holds `final(nfa, true)`. |
| Subset.SubsetDfaValid | diff.js:354-391 | Such a subset DFA is valid and numbered in the call's range. |
| Subset.SubsetWalk | diff.js:354-391 | From the state of any discovered set, the DFA accepts exactly the words that the reversed NFA accepts from that set. |
| Subset.SubsetAccepts | diff.js:354-391 | The DFA of `toDfaRev` accepts `w` exactly when the reversed NFA, starting from `begin(nfa, true)`, accepts `w`. |
| Rebuild.StateNode | diff.js:393 | `idGet(s, p)` for a DFA state: its node, a fresh one queued once when `p` is new. |
| Rebuild.AddMove | diff.js:405-407 | One transition of the DFA becomes one move, with the same character, to the target's node. |
| Rebuild.BuildRow | diff.js:405-407 | The popped state's node gets exactly one move per transition of the state. |
| Rebuild.ConvStep | diff.js:399-408 | One iteration adds the accepting epsilon when the state accepts, then the state's row, and keeps the invariant. |
| Rebuild.DrainConv | diff.js:399-408 | When the queue is empty, every reached DFA state's node has its row, and older nodes keep their lists. |
| Rebuild.DfaToNfa | diff.js:395-410 | `dfaToNfa` starts at the node of the initial state and ends at a fresh end node. Every reached state's node carries an epsilon to the end exactly when it accepts, then one move per transition. Every new record is on its source's forward list and its target's back list, and every new list entry is a new record. The old graph and assertions are kept. |
| Rebuild.RebuiltReversed | diff.js:395-410 | Read backwards from its end node, as `toDfaRev` reads it, the graph `dfaToNfa` builds accepts `w` exactly when `d` accepts `w` reversed. |
| Rebuild.BackwardsWalk | diff.js:399-408 | From a set whose closure is the nodes of some states (and perhaps the end), the backward reading accepts `w` exactly when `w` reversed leads `d` from its initial state into those states. |
| Rebuild.TargetsArePre | diff.js:405-407 | The backward character moves of a set of state nodes on `c` reach exactly the nodes of the states that move on `c` into the set. |
| Rebuild.ClosureOfEnd | diff.js:402-404 | The backward epsilon-closure of the end node is the end with the nodes of the accepting states. |
| Rebuild.WalkAmongMet | diff.js:399-408 | Walking `d` from a reached state stays among the reached states. |
| Diff.Appended | main.js:108-124 | Replaying one more step: a keep copies the next input character, a delete skips it, and an insert writes its string. |
| Diff.KeyOrder | diff.js:453-455 | `edges.keys()` lists every state exactly once. |
| Diff.DirectRow | diff.js:445-451 | The first row of a state: one move to each direct target (a character that leads there), and the empty string to the state itself. |
| Diff.DirectPaths | diff.js:444-452 | There is one direct row per state of the DFA. |
| Diff.Relax | diff.js:456-459 | One relaxation replaces the entry from `b` to `c` only with a strictly shorter path through `a`. Afterwards the entry is no longer than that path. Every other entry is unchanged. |
| Diff.RelaxRound | diff.js:454-461 | After a round through `a`, every entry is bounded by every walk whose intermediate states are among those used so far. |
| Diff.Rounds | diff.js:453-462 | After the triple loop, every entry is bounded by every walk between its two states. |
| Diff.AllPairsShortestPath | diff.js:443-464 | Every stored path walks from its source to its target. For every walk between two states there is an entry no longer than it. |
| Diff.Improve | diff.js:466-469 | `improve` keeps the cheaper of the old and offered entry, with the offered one winning ties and on a new key. It changes no other key, and appends the key to the order only when it is new. |
| Diff.ImproveSound | diff.js:466-469 | Offering a sound entry keeps every entry a real script reaching its state at its stated cost. It lowers no cost and only appends to the order. |
| Diff.InsertFrom | diff.js:473-475 | After one entry's insertions, every target of its stored paths is reached at most at the entry's cost plus the insertion's. |
| Diff.DoInsertions | diff.js:471-477 | After `doInsertions`, every target of every entry's stored path is reached at most at that entry's cost plus the insertion's, even for entries added during the loop. The table stays sound. |
| Diff.Advance | diff.js:487-498 | For each entry, the next table offers its deletion (cost +10) and, when the state moves on `c`, its keep at the same cost. Every entry is a real script one character later. |
| Diff.Best | diff.js:505-512 | The final loop finds no entry exactly when no accepting state is in the table. Otherwise it returns an accepting entry of least cost. |
| Diff.StripTail | diff.js:471-477 | A script ends in a run of insertions. Dropping them reads the same input, outputs a prefix, and saves at least 10 per inserted character, plus 1 when any were dropped. |
| Diff.StartCovers | diff.js:483-484 | The starting table covers the empty script, the only one that reads nothing and ends without an insertion. |
| Diff.InsertionsCover | diff.js:500-501 | After the insertions, the table beats every script reading the same input, whatever insertions it ends with. |
| Diff.AdvanceCovers | diff.js:487-498 | After one character, the table beats every script reading one more character that ends with a keep or a delete. |
| Diff.Round | diff.js:487-503 | One pass of the main loop keeps the table sound and covering every script that reads one more character. |
| Diff.NoneAccepted | diff.js:505-512 | A final table with no accepting state means no script reading the whole input reaches acceptance. |
| Diff.BestAccepted | diff.js:505-513 | The cheapest accepting entry of the final table reads the whole input into an accepted output, and no such script is cheaper. |
| Diff.Diff | diff.js:479-514 | `diff` returns an edit script that reads the whole input, whose output the DFA accepts, and that costs no more than any such script. It reports `NoAcceptingEntry` only when no script is accepted. |
| Diff.DiffFor | diff.js:516-518 | `diffFor` passes through the compiler's errors and the unmatchable error. Otherwise it gives `diff`'s guarantee against the compiled DFA, trimmed in lazy mode. |

## Left out

- **Parsing.** `parse` (the `regexp-tree` parser, the `cg` rewriting,
  anchoring with `.*(…).*`) is not part of this model. The syntax tree is an
  input (`RegexAst.Node`).
- **The `^`, `$` and `\b` expansions.** They are given as tree constants
  (`StartExpansion`, `EndExpansion`, `BoundaryExpansion`, `DotStar`) rather
  than parsed from their pattern strings. `parse('.*')` is unanchored, so
  `DotStar` is the tree of `.*(.*).*`, not a single `.*` repetition. The two
  describe the same language.
- **Character tests.** The test of `new RegExp(re.generate(node), "us")`
  becomes the predicate `CharTest.matches`, with `generatesEmpty` for a class
  printed `[]`. The `\P{C}` filter becomes the parameter `visible`; both are
  abstract.
- **Traversal order.** `re.traverse` becomes structural recursion in the same
  pre-order: the first error met is the one the source throws.
- **Lone surrogates.** A Dafny `char` is a Unicode scalar value, so lone
  surrogates, which the source's scans can pick, are skipped
  (`Alphabet.Scan`). For the same reason the input string cannot hold one.
  `charset` seeds the alphabet with the input's code points (diff.js:71), and
  the main loop of `diff` reads the input one code point at a time
  (diff.js:487). Both would take a lone surrogate as a character. Neither
  case is modelled.
- **Falsy code point 0.** A literal NUL has a falsy `codePoint` in the source
  and takes the scanning path. The model takes the literal path, which adds
  the same character.
- **JS sort order.** `goodKey` and the product key sort ids as strings. The
  model sorts them as numbers. Both keys are canonical, which is all the memos
  need (`Base.KeyInjective`).
- **Iteration order.** The order of `Map`/`Set` iteration is left open, except
  in `doInsertions`.
- Nfa.Arena.Append: the model copies `other.start`'s forward list into
  `nfa.end`. The source makes the two states share one array, so a later push
  through either is seen by both. That sharing is not modelled.
- Diff.Diff: costs are exact integers (scaled by ten). The source's floating
  point sums can round differently at exact ties, so among scripts of equal
  least cost it may pick another one.
- Diff.AllPairsShortestPath: path lengths count characters, where the
  source's `length` counts UTF-16 code units. An inserted character outside
  the Basic Multilingual Plane counts once here and twice there.
- Diff.Diff: for the same reason, an insertion's cost counts characters, not
  UTF-16 units.
- Diff.Diff: the source dereferences `best.steps` with `best` null when no
  accepting entry exists. The model returns `NoAcceptingEntry` there instead.
- **Replay.** The UI's replay loop (main.js:103-127) indexes the UTF-16 string.
  `Diff.Output` indexes characters.
- **Language of `compile`.** No end-to-end language equivalence between
  `compile(e)` and the expression is stated. `toNfa` and the two `intersect`
  passes have structural contracts and no language contract. The subset
  construction, `dfaToNfa` followed by `toDfaRev`, `negate` and the lazy trim
  have language lemmas.
- Compiler.ToNfa: no language of a fragment is stated, so `toNfa` has no
  language partner. The composite builders `ToNfa`, `AlternativeNfa`,
  `DisjunctionNfa`, `RepetitionNfa`, `AssertionNfa`, `Repeat` and `CopyJoin`
  state their error cases, the fragment's shape and what they keep. They do
  not state every record they add. The exact records are stated for the
  builders they are made of: `Eps`, `Spread`, `Gather`, `Fork`, `Id`, `Join`,
  `Copy`, `Class`, `OrId`, `Sides`, `DisjPost`, `JoinAll`, `Bypass`, `Starred`, `Place`, the final
  moves of `Ranged`, and the character, class and empty-group cases of
  `ToNfa`.
- Compiler.Passes: the language of the two `intersect` passes is not stated.
  The DFA's language is tied to the graph of the second pass, not to the
  expression.
- Compiler.Compile: for the same reason, the DFA's language is tied to the
  graph of the second `intersect` pass, not to the expression.
- Compiler.LookBody: `fwd` is tied to `Compile`'s contract for `Padded(e)`,
  which does not give the padded body's language.
- Compiler.Ranged: it states the final moves and the saved ends. It does not
  state which records the clones add, or that older records are kept.
- Alphabet.CollectCharset: it uses the corrected `AddClass` of the Findings
  row, so `Charset`, `CompileFor` and `DiffFor` model the corrected program.
  The scan as written is `AddClassAsWritten`, which no later stage calls.
- **UI and worker.** The rest of `main.js` (UI, rendering), `worker.js` and
  `vite.config.js` are not part of this model.

## Findings

| source | as written | input that shows it | evidently intended | confidence | as-written member | corrected member |
|---|---|---|---|---|---|---|
| diff.js:40 | the last scan of `addClass` runs `i < 0x10FFFF`, so U+10FFFF is never tried | the pattern `[\u{10FFFF}]` with an input that lacks U+10FFFF: nothing is added, the class gets no move, and the pattern is rejected as matching nothing | scan every code point up to and including U+10FFFF, as the comment on line 47 (`[^\0-\u{10ffff}]` is `[]`) says | not executed | Alphabet.LastCodePointMissedAsWritten | Alphabet.FullScanSamplesEverySatisfiableClass |
