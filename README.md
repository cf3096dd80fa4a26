# Singly linked list of owned strings

A model of the list at the heart of `main.c`. The program keeps one ordered
collection of texts, typed in by the user, in a singly linked chain of `No`
nodes. Each node holds a heap-allocated string `dado` and a link `prox`. The
first node is the global `inicio`. The program can:

- append a text at the tail (`inserir`, using `criarNo`),
- walk the chain and show every text (`listar`),
- read the text at a zero-based position (`consultar`),
- replace the first text equal to a key (`alterar`),
- unlink and free the first node whose text equals a key (`removerElemento`).

The model has three modules:

- `TextSeq` (text_seq.dfy) holds reference definitions over plain sequences of
  strings. `IndexOf` is the first-match position. `ReplaceFirst` and
  `RemoveFirst` say what the list's contents become. The lemmas state what
  these mean: a point update at `IndexOf`, a splice around `IndexOf`, the
  length, the multiset of texts, and what happens when the key is absent or
  occurs once.
- `LinkedList` (linked_list.dfy) holds the imperative model. `Node` has
  mutable `data` and `next` fields. `TextList` turns the global `inicio` into
  the field `head` of an object. Its ghost fields are `Nodes` (the chain's
  nodes from the head), `Contents` (their texts) and `Repr` (its footprint).
  `Valid()` ties `head` and every `next` link to `Nodes`. No node occurs twice,
  so the chain is acyclic and every `while (aux != NULL)` loop terminates.
  `head` is null exactly when `Contents` is empty. Every operation is a method
  whose loop mirrors the C loop. `Update` and `Remove` are proved against
  `TextSeq`'s `ReplaceFirst` and `RemoveFirst`. `Insert`, `List` and `Get`
  state their results directly over `Contents`.
  The `Skips` predicate states `Unlink`'s effect position by position, which
  keeps the solver's quantifier matching under control. `SkipsIsSplice` turns
  that form into the prefix-plus-suffix splice that `Remove` promises.
- `Scenarios` (scenarios.dfy) is a client. It drives the list the way the
  menu does and checks that the contracts alone fix every answer.

C's `strcmp(a, b) == 0` is string equality. The 1/0 results of `alterar` and
`removerElemento` are `true`/`false`. The NULL result of `consultar` is `None`.

## Model

| member | source | states |
|---|---|---|
| `TextSeq.IndexOf` | main.c:158-165 | the scan's stopping point: the first position holding the key (no earlier position holds it), or the length when the key is absent |
| `TextSeq.ReplaceFirstIsUpdate` | main.c:155-167 | replacing by value updates exactly the first position holding the key to the new text; the list is unchanged when the key is absent |
| `TextSeq.ReplaceFirstFrame` | main.c:158-163 | replacing keeps the length and every other position; the first match now holds the new text |
| `TextSeq.ReplaceFirstMultiset` | main.c:159-162 | a successful replacement swaps one copy of the old text for one copy of the new one and keeps every other text |
| `TextSeq.ReplaceOnlyOccurrence` | main.c:155-167 | once the only occurrence of a key has been replaced by a different text, a second replacement of that key, by any text, finds nothing and changes nothing |
| `TextSeq.RemoveFirstLength` | main.c:185-208 | a removal shortens the list by one exactly when the key occurs |
| `TextSeq.RemoveFirstAbsent` | main.c:192-198 | removing an absent key leaves the list as it was |
| `TextSeq.RemoveFirstAt` | main.c:200-203 | after a removal, the texts before the first match keep their positions and later texts move down by one |
| `TextSeq.RemoveFirstShift` | main.c:192-208 | removal leaves the earlier texts in place, moves the later ones down by one, and changes nothing when the key is absent |
| `TextSeq.RemoveFirstIsSplice` | main.c:192-208 | when the key occurs, the result is the prefix before its first occurrence followed by the suffix after it |
| `TextSeq.RemoveFirstMultiset` | main.c:197-208 | a removal takes exactly one copy of the key out of the collection, and nothing else |
| `TextSeq.RemoveOnlyOccurrence` | main.c:185-208 | once the only occurrence of a key has been removed, removing that key again finds nothing and changes nothing |
| `LinkedList.SkipsIsSplice` | main.c:200-203 | proof helper for `Remove`: a sequence with position `i` skipped and later elements moved down is the prefix before `i` followed by the suffix after it |
| `LinkedList.Node.constructor` | main.c:56-68 | `criarNo`: a new node holding the given text, detached (`prox == NULL`) |
| `LinkedList.TextList.constructor` | main.c:17 | the initial list: `inicio == NULL`, no contents, a valid chain |
| `LinkedList.TextList.FollowFrom` | main.c:88-89 | following `k` links from node `i` reaches node `i + k`, or null just past the last node |
| `LinkedList.TextList.ChainLength` | main.c:106-111 | from the head, the first `N` steps meet the `N` texts in order and step `N` reaches NULL: the chain is finite and acyclic |
| `LinkedList.TextList.Insert` | main.c:79-92 | `inserir`: contents become old contents plus the new text. The old nodes stay in place and the one new node is fresh. An empty list gets the new node as head, with a null link. Otherwise the head is kept and the old last node now links to the new node |
| `LinkedList.TextList.List` | main.c:100-112 | `listar`: an empty list (null head) is reported as such before any walk; otherwise the walk yields every text exactly once, from head to tail |
| `LinkedList.TextList.Get` | main.c:125-141 | `consultar`: no result for a negative position or one at or past the length; otherwise exactly the text at that position; the list is not changed |
| `LinkedList.TextList.Overwrite` | main.c:160-161 | the in-place write: node `i` now holds the new text. Contents change at position `i` only. Chain, head and footprint are unchanged |
| `LinkedList.TextList.Update` | main.c:155-168 | `alterar`: reports success exactly when the key occurs. Only the first occurrence's text is replaced, so length and all other positions are kept. A miss (also on an empty list) changes nothing. The chain's nodes and links are not touched |
| `LinkedList.TextList.Unlink` | main.c:200-206 | the pointer surgery: node `i` leaves the chain and `Repr`. Its predecessor, or the head when `i == 0`, takes over its successor. The other nodes keep their order |
| `LinkedList.TextList.Remove` | main.c:185-209 | `removerElemento`: reports success exactly when the key occurs. Contents lose exactly the first occurrence, as prefix plus suffix, and the length drops by one. The node leaves `Repr`. The head moves to its successor when the first node matched. A miss (also on an empty list) changes nothing |

## Left out

- `lerString` (main.c:28-43) reads a line through a 1024-byte buffer, strips the newline and copies it. Terminal input is not modelled: every text reaches the list operations as a parameter.
- `menu` and `main` (main.c:216-308) are the `printf`/`scanf` dispatch loop. The `Scenarios` module plays that role instead. The dispatcher frees the unused new text when `alterar` misses and always frees the key. That is caller behaviour: `Update` only shows that a miss leaves the new text out of the list.
- Allocation failure (main.c:36-39, main.c:59-62) ends the process with `exit(1)`. It is not modelled: allocation always succeeds.
- The `free` calls (main.c:160, main.c:205-206) have no Dafny counterpart. Memory is garbage-collected. Release is modelled as the text leaving `Contents` and, for `removerElemento`, the node leaving `Nodes` and `Repr`.
- The output of `listar` (main.c:102, main.c:107, main.c:109) is not modelled. `List` returns what would be printed: the empty marker or the texts in order.
- C `int` bounds: the position and the counter `i` of `consultar` are C `int`s; here they are unbounded integers. On every `int` position the two agree: `i` stays below `pos` before each `i++` (main.c:133-137), so the counter never overflows. `Get` also accepts positions outside `int` range, which no C caller can pass.
