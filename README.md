# god_llm reasoning tree, modelled in Dafny

The model covers the in-memory engine of class `God` in god_llm. The engine keeps a
tree of question/answer nodes indexed by identifier. Each node records:

- a parent link and a list of children;
- a list of related nodes, found by text similarity;
- a snapshot of the context it was created in.

The engine has three jobs:

- **Growing the tree.** `expand` builds the context from the ancestors, stores the
  node the language model produced, links it to similar nodes, and deletes it again
  when a relevance gate rejects it.
- **Pruning.** `_delete_node` detaches a node from its parent and orphans its children.
- **Ranking.** `pray` enumerates every root-to-leaf path, scores each path on five
  weighted metrics, pops the best `k` from one shared priority queue and groups them
  by root.

The files:

- `base.dfy`: the node record (`NodeRec`), context snapshots and small sequence
  helpers.
- `store.dfy`: the store (`map<Id, NodeRec>`) and the specification functions of its
  changes:
  - the context walk (`Ancestors`, `History`);
  - relation discovery (`Relate`);
  - insertion (`Inserted`);
  - deletion (`Detached`, `Orphaned`, `Deleted`);
  - the store a rejected expansion leaves behind (`Dangling`);
  - the invariants those changes keep (`Linked`, `RelationsSymmetric`, `KeysInOrder`).
- `prompt.dfy`: the enhanced prompt text.
- `relevance.dfy`: the relevance gate: `str.split`, key concepts, overlap,
  continuity, depth penalty, recency, and the weighted verdict.
- `paths.dfy`: depth-first path enumeration as a function (`PathsFrom`), the shape
  of every path it yields, and the mutable search state `PathSearch`.
- `scoring.dfy`: the five metrics, the fixed weights and the total.
- `selection.dfy`: pop order, top-k selection and bucketing by root.
- `engine.dfy`: class `God`. It holds the store and its key order as fields. Every
  step of the engine is a method proved against the specification functions above.

The Python dictionary `self.nodes` is modelled as a map plus `order`, the sequence
of its keys in insertion order. The order matters because `_find_relations` and
`pray` iterate the dictionary: it decides the order of appended relation ids and
the order in which paths are pushed. The similarity function is an opaque parameter
of the engine.

A rejected expansion deletes the new node. It does not take the node's identifier
out of the relation lists of the nodes it was linked to. The model keeps this
behaviour: `Store.RejectedExpansion` and `Engine.God.Expand` state the resulting
store exactly as `Dangling`, so the dangling identifiers are part of the
postcondition.

## Model

| member | source | states |
|---|---|---|
| Engine.God.constructor | god_llm/core/god.py:29-51 | A new engine has an empty store and an empty key order, and keeps the similarity, threshold and context window it was given. The threshold defaults to 0.7 and the window to 3. |
| Engine.God.BuildContextHistory | god_llm/core/god.py:62-81 | The while-loop walk returns exactly `History(nodes, nodeId, contextWindow)`, the reversed walk up the parent links. |
| Store.HistoryShape | god_llm/core/god.py:62-81 | No id gives an empty history. Otherwise the history has at most `contextWindow` entries, and is non-empty exactly when the id is given and the window is positive. It is oldest first: entry i has depth `len-1-i`, so depths strictly decrease. The last entry is the start node at depth 0. Every entry copies its node's prompt, and each entry's node is the parent of the next one's. |
| Store.HistoryEntries | god_llm/core/god.py:62-81 | Entry i of the history has depth `len-1-i` and copies the prompt of a present node. |
| Store.HistoryLinks | god_llm/core/god.py:66-79 | Each history entry's node is the parent of the next entry's node. |
| Store.AncestorsParent | god_llm/core/god.py:66-79 | In the newest-first walk, entry j's node is present and its parent is entry j+1's node. |
| Store.History | god_llm/core/god.py:62-81 | The history has at most `contextWindow` entries. It is non-empty exactly when an id is given and the window is positive, and then its last entry is the start node at depth 0. |
| Store.Ancestors | god_llm/core/god.py:66-79 | The walk from depth d holds at most `window-d` entries. It is non-empty exactly when there is a current node and d is below the window, and then it starts with the current node at depth d. |
| Store.AncestorsShape | god_llm/core/god.py:66-79 | The newest-first walk stops at the window or at a root: it is empty exactly when there is no id or the window is used up, and a non-empty walk either fills the remaining window or ends at a node without a parent. Entry j is at depth `depth+j`, copies its node's prompt and thought, and each node is the parent of the one before it. |
| Store.HistoryStops | god_llm/core/god.py:66-79 | A non-empty history either fills the window or starts (oldest entry) at a node without a parent. |
| Prompt.EnhancedPrompt | god_llm/core/god.py:83-91 | The enhanced prompt equals the raw prompt exactly when the history is empty. Otherwise it is strictly longer. |
| Prompt.CreateEnhancedPrompt | god_llm/core/god.py:83-91 | The loop that appends one block per entry returns `EnhancedPrompt(prompt, h)`. |
| Prompt.EnhancedPromptLayout | god_llm/core/god.py:87-91 | A non-empty history renders as: the "Previous context:" header first; then each entry's block, at the offset right after the blocks of the entries before it; then the current question and the coherence instruction at the end. |
| Prompt.ContextBlockEntry | god_llm/core/god.py:87-89 | Within the context block, the header comes first, and entry i's block sits right after the blocks of entries 0..i-1. |
| Prompt.ContextBlockPrefix | god_llm/core/god.py:88-89 | The block of the first i entries is a prefix of the block of all entries. |
| Prompt.NatToStringRoundTrip | god_llm/core/god.py:89 | The decimal rendering of a depth reads back as that depth. |
| Prompt.EntryText | god_llm/core/god.py:89 | An entry's block is 17 characters longer than its depth digits, prompt and thought together. |
| Prompt.EntryTextFields | god_llm/core/god.py:89 | An entry's block carries the depth's digits right after "\nDepth " (and they read back as the depth), the prompt right after ":\nQ: ", and the thought just before the final newline. |
| Prompt.ContextBlock | god_llm/core/god.py:87-89 | The context block is never shorter than the "Previous context:" header. |
| Prompt.ContextBlockHeader | god_llm/core/god.py:87-89 | The context block starts with the "Previous context:" header. |
| Store.RelatedIds | god_llm/core/god.py:97-104 | The ids appended to the new node's relations are exactly the scanned ids that are close to it: another node, with similarity strictly above the threshold. They hold no duplicates and never the node itself. |
| Engine.ScanRelations | god_llm/core/god.py:97-105 | The scan over the keys, in insertion order, returns `Relate(start, keys, id, ...)`. |
| Engine.God.FindRelations | god_llm/core/god.py:93-105 | `_find_relations` leaves the key order alone and turns the store into `Relate(old nodes, order, id, ...)`. |
| Store.RelateNext | god_llm/core/god.py:97-105 | Scanning key i adds `other` to `id`'s relations and `id` to `other`'s when the two are close, and otherwise changes nothing. |
| Store.RelateStep | god_llm/core/god.py:97-105 | The same step, stated for any scanned prefix. |
| Store.RelateStepClose | god_llm/core/god.py:100-104 | Scanning a key close to `id` appends each of the two ids to the other's relations. |
| Store.RelateStepFar | god_llm/core/god.py:100-104 | Scanning a key that is `id` itself or not close to it changes nothing. |
| Store.Relate | god_llm/core/god.py:93-105 | Relation discovery keeps the key set. |
| Store.RelateEffect | god_llm/core/god.py:93-105 | Relation discovery changes only relation lists. Between `id` and any other node, it adds the same number of links on both sides: exactly one when they are close, none otherwise. It never relates `id` to itself. |
| Store.RelatePreservesSymmetry | god_llm/core/god.py:93-105 | Relation counts stay symmetric between every two nodes. |
| Store.RelatePreservesLinked | god_llm/core/god.py:93-105 | Parent and children links are untouched, so tree consistency is kept. |
| Relevance.LowerChar | god_llm/core/god.py:145 | A lowered character is never an upper-case letter, and it is a separator exactly when the original is. |
| Relevance.Lower | god_llm/core/god.py:145 | Lower-casing keeps the length and lowers each character in place. |
| Relevance.Words | god_llm/core/god.py:145 | Every word `split()` yields is non-empty, holds no separator, and is made of characters of the text. |
| Relevance.SplitJoin | god_llm/core/god.py:145-166 | Splitting a space-joined list of words gives the list back. |
| Relevance.KeyConcepts | god_llm/core/god.py:143-149 | Every key concept is a lower-case token of at least three characters. It holds no separator, is outside the 13-word stop set, and is drawn from the lowered text. |
| Relevance.KeyConceptsIgnoreCase | god_llm/core/god.py:145 | Lower-casing a text first does not change its key concepts. |
| Relevance.Overlap | god_llm/core/god.py:154-157 | The concept overlap is 0 when the prompt has no concepts and always lies in [0, 1]. It is 1 exactly when the prompt has concepts and all of them are the node's. |
| Relevance.Continuity | god_llm/core/god.py:159-169 | Context continuity is 0 without history or without prompt concepts, and always lies in [0, 1]. |
| Relevance.DepthPenalty | god_llm/core/god.py:171-175 | The depth penalty lies in [0.8, 1.0]. It is `1 - 0.05*n` up to four entries and 0.8 from four on. |
| Relevance.Recency | god_llm/core/god.py:177-182 | The recency bonus is never negative, is 0.2 at age 0 and at most 0.2 for any non-negative age. It is 0 exactly from 17280 seconds (4.8 hours) on: the bonus subtracts the age in days from 0.2, so it does not last a full day. |
| Relevance.CompositeReadsTextAndHistory | god_llm/core/god.py:151-173 | The verdict depends only on the node's text and its context history. |
| Relevance.Composite | god_llm/core/god.py:184-198 | With similarity in [0, 1] and a non-negative age, the weighted score lies in [0.12, 0.96]. |
| Relevance.IsRelevant | god_llm/core/god.py:184-212 | The gate is a strict `>` on the weighted score. With similarity in [0, 1] and a non-negative age, a threshold below 0.12 keeps every node and one of 0.96 or more rejects every node. |
| Relevance.NoConceptsComposite | god_llm/core/god.py:154-198 | A prompt without key concepts is judged only on similarity, depth penalty and recency. |
| Store.Inserted | god_llm/core/god.py:238-241 | Storing a node adds exactly its key. |
| Store.InsertPreservesLinked | god_llm/core/god.py:238-241 | Storing a fresh childless node under a present parent keeps tree links consistent and extends the key order by the new id. |
| Store.InsertChildLists | god_llm/core/god.py:238-239 | After the append to the parent's children, every listed child is present and names its parent, and no list holds a child twice. |
| Store.InsertKeys | god_llm/core/god.py:241 | The key order after a store is the old order followed by the new id. |
| Store.InsertPreservesSymmetry | god_llm/core/god.py:241 | A fresh node without relations keeps relation counts symmetric. |
| Engine.God.AddNode | god_llm/core/god.py:238-242 | The storing step of `expand` appends the id to the key order. The store becomes `Relate(Inserted(old, id, node), old order + [id], id, ...)`. |
| Store.RelatedRecords | god_llm/core/god.py:238-242 | After inserting and relating, each old node has `id` appended to its children when it is the parent, and to its relations when it is close. The new node keeps its parent and children. |
| Store.ExpansionShape | god_llm/core/god.py:238-248 | Inserting and relating a fresh node keeps links, key order and symmetric relations, and the new node can be deleted. Deleting it again restores all three over the old key order. |
| Store.RejectedExpansion | god_llm/core/god.py:238-249 | Insert, relate, then delete of a rejected node gives exactly `Dangling(nodes, id, ...)`. That store has the original keys, children lists and parents, and every node close to the rejected one keeps its now dangling id. |
| Store.RejectedRecord | god_llm/core/god.py:238-249 | The same outcome, stated for the record under one key. |
| Store.Dangling | god_llm/core/god.py:238-249 | The store left by a rejected expansion has the original key set. |
| Store.Grown | god_llm/core/god.py:238-242 | Storing and relating a new node adds exactly its key. |
| Engine.God.Expand | god_llm/core/god.py:214-249 | The history is `History(parent)` and the prompt sent is `EnhancedPrompt(prompt, history)`. A node the gate keeps stays, the call returns its id, and the key order grows by it. A rejected node returns `parentId`, restores the key order, and leaves exactly `Dangling(old nodes, ...)`. Tree links, key order and relation symmetry hold afterwards either way. |
| Engine.God.Admit | god_llm/core/god.py:238-249 | The store half of `expand` reports the gate's verdict. A kept node leaves `Grown(...)` and the key order extended by its id. A rejected node leaves the old key order and exactly `Dangling(old nodes, ...)`. The engine invariant holds afterwards either way. |
| Store.Detached | god_llm/core/god.py:272-273 | Detaching from the parent keeps the key set. |
| Store.Orphaned | god_llm/core/god.py:275-277 | Orphaning keeps the key set. |
| Store.OrphanStep | god_llm/core/god.py:275-277 | Orphaning one more child clears its parent when it is present and otherwise changes nothing. |
| Engine.God.OrphanChildren | god_llm/core/god.py:275-277 | The loop over the children clears the parent of each present child, giving `Orphaned(old nodes, kids)`. |
| Store.Deleted | god_llm/core/god.py:267-281 | Deletion removes exactly the deleted key. |
| Store.DeleteEffect | god_llm/core/god.py:267-281 | Deleting an absent id changes nothing. Otherwise only the key goes: the parent loses one occurrence of the id, every present child gets no parent, there is no cascading delete, and every other record stays as it was. |
| Store.DeleteParentChildren | god_llm/core/god.py:272-273 | The parent's children lose exactly the first occurrence of the id, and the other children keep their order: the new list is the old one with that one position cut out. The multiset loses one copy and the length goes down by one. |
| Store.DeleteKeys | god_llm/core/god.py:279 | The key order after deletion is the old order without the id. |
| Store.DeletePreservesLinked | god_llm/core/god.py:267-281 | In a consistent tree every node can be deleted, and deleting it keeps the tree consistent. |
| Store.DeletePreservesSymmetry | god_llm/core/god.py:267-281 | Relation counts stay symmetric among the remaining nodes. |
| Store.DeleteKeepsRelations | god_llm/core/god.py:267-281 | Deletion leaves the relation list of every remaining node as it was. |
| Store.SymmetryOnSubstore | god_llm/core/god.py:267-281 | Dropping keys while keeping the remaining relation lists keeps relation counts symmetric. |
| Engine.God.DeleteNode | god_llm/core/god.py:267-281 | `_delete_node` turns the store into `Deleted(old, id)` and the key order into the old order without `id`, and keeps the key order in step with the store. |
| Paths.Prepend | god_llm/core/god.py:386 | Putting a prefix in front of every path keeps the count, and each result is the prefix plus the path. |
| Paths.PathsFromShape | god_llm/core/god.py:379-393 | Every path produced starts at the start node and ends at a node without children. Each step goes from a node to one of its children, no id repeats, and no already-visited node appears. |
| Paths.PathsFromComplete | god_llm/core/god.py:379-393 | The search misses no path: every leaf path from the start node that avoids the visited nodes is reported. With `PathsFromShape` this makes the reported paths exactly those leaf paths. |
| Paths.PathsOverContains | god_llm/core/god.py:388-390 | Every leaf path that avoids the visited nodes and starts at one of the listed children is among the paths through those children. |
| Paths.PathsFromNoDup | god_llm/core/god.py:379-393 | When no children list repeats a child, the search reports each path at most once. |
| Paths.PathsOverNoDup | god_llm/core/god.py:388-390 | Distinct children give disjoint path lists, so the paths through a repeat-free children list are distinct. |
| Paths.PrependNoDup | god_llm/core/god.py:386 | Putting the current node in front keeps distinct paths distinct. |
| Paths.PathsOverShape | god_llm/core/god.py:388-390 | Every path through a children list starts at one of those children and is a leaf path avoiding the visited set. |
| Paths.ConsLeafPath | god_llm/core/god.py:381-390 | A node followed by a leaf path from one of its unvisited children is a leaf path. |
| Paths.PathsOverStep | god_llm/core/god.py:388-390 | The paths through `kids[..i+1]` are those through `kids[..i]` followed by those through `kids[i]`, in children order. |
| Paths.PathSearch.constructor | god_llm/core/god.py:349 | A new search starts with an empty visited set, an empty current path and no paths. |
| Engine.God.FindPaths | god_llm/core/god.py:379-393 | On return, `visited` and `path` are as on entry. `paths` has gained, in children order, the current path followed by each path of `PathsFrom(nodes, start, visited)`. |
| Engine.Roots | god_llm/core/god.py:342-343 | The roots are exactly the parentless keys of the order: every root is such a key and every such key is a root. No root is listed twice when no key is. |
| Engine.RootsInKeyOrder | god_llm/core/god.py:342-343 | The roots come in key order: a root listed before another was inserted before it. |
| Engine.RootsOrderWithRoot | god_llm/core/god.py:342-343 | Scanning one more parentless key keeps the roots in key order. |
| Engine.RootsOrderWithInner | god_llm/core/god.py:342-343 | Scanning one more key that has a parent keeps the roots in key order. |
| Engine.AllPathsShape | god_llm/core/god.py:342-349 | Every path found for `pray` is a leaf path starting at one of the roots. |
| Engine.AllPathsComplete | god_llm/core/god.py:342-349 | Every leaf path that starts at one of the roots is among the paths found. |
| Engine.AllPathsNoDup | god_llm/core/god.py:342-349 | With distinct roots and repeat-free children lists, no path is found twice. |
| Engine.PrayPaths | god_llm/core/god.py:342-349 | In a consistent tree, the paths `pray` ranks are exactly the leaf paths starting at a parentless node, each listed once. |
| Engine.Candidates | god_llm/core/god.py:351-367 | One heap entry per path, in push order. Entry i was discovered i-th, carries path i, and its priority equals its record's score, which is the path's `Score(...).total`. |
| Engine.PushPaths | god_llm/core/god.py:351-367 | The inner loop of `pray` pushes exactly the candidates of the paths found so far followed by the new ones. |
| Engine.God.PushAll | god_llm/core/god.py:342-367 | The push phase yields exactly the candidates of all leaf paths of all roots, in key order. |
| Scoring.TotalIsWeightedMean | god_llm/core/god.py:54-60 | The weights 0.25/0.15/0.25/0.15/0.20 add up to 1, so the total lies between the smallest and largest metric. |
| Scoring.DepthMetric | god_llm/core/god.py:300 | DEPTH, the mean of the nodes' own scores, lies in [0, 1] when every node's score does. For a one-node path it is that node's score. |
| Scoring.RelationMetric | god_llm/core/god.py:301 | RELATION, the mean relation count along the path, is never negative. For a one-node path it is that node's relation count. |
| Scoring.CoherenceMetric | god_llm/core/god.py:310-321 | COHERENCE is 1 for paths shorter than 2. Otherwise it is the mean similarity of consecutive nodes, so it lies in [0, 1] when similarities do. |
| Scoring.NodeNovelty | god_llm/core/god.py:330-334 | One minus a path node's mean similarity to the other nodes lies in [0, 1] when similarities do. |
| Scoring.NoveltyMetric | god_llm/core/god.py:323-336 | NOVELTY is 0.5 when no node lies outside the path. It lies in [0, 1] when similarities do. |
| Scoring.RetentionMetric | god_llm/core/god.py:283-293 | CONTEXT_RETENTION is 1 for paths shorter than 2. Otherwise it is the mean retention of the nodes after the first, so it lies in [0, 1] when retentions do. |
| Scoring.MakeScore | god_llm/core/god.py:299-308 | The metric dictionary has exactly the five metrics as keys. The weighted total lies in [0, 1] when every metric does, and is non-negative when every metric is. |
| Scoring.Score | god_llm/core/god.py:295-308 | A path's score has exactly the five metrics as keys. Its total is non-negative when similarities, node scores and retentions lie in [0, 1]. |
| Scoring.NoveltyFallback | god_llm/core/god.py:325-328 | No node lies outside the path exactly when every key is on it, and NOVELTY is then 0.5. |
| Scoring.SingleNodeScore | god_llm/core/god.py:283-336 | For a one-node path in a one-node store: DEPTH is the node's score and RELATION its relation count. COHERENCE and CONTEXT_RETENTION are 1 (paths shorter than 2), and NOVELTY is 0.5. |
| Scoring.MeanBounds | god_llm/core/god.py:293-336 | A mean of values in [lo, hi] lies in [lo, hi]. |
| Scoring.SumBounds | god_llm/core/god.py:301 | A sum of n values in [lo, hi] lies in [n*lo, n*hi]. |
| Scoring.StepSims | god_llm/core/god.py:314-319 | There is one similarity per consecutive pair of the path. |
| Scoring.Outside | god_llm/core/god.py:325 | The other nodes are exactly the keys not on the path, each listed once when the keys are distinct. |
| Scoring.Retentions | god_llm/core/god.py:287-291 | There is one retention per node after the first. |
| Selection.BestIndex | god_llm/core/god.py:373 | The entry popped is one no other entry pops before: it has the highest total, and the earliest discovery among equal totals. |
| Selection.TakeTop | god_llm/core/god.py:369-377 | The pop loop pops `min(k, heap size)` entries, none when k <= 0. The popped and unpopped entries together are a permutation of the heap. Popped entries are in non-increasing total. No unpopped entry scores above a popped one. The result is `Bucket(popped)`, holding `|popped|` records in all. Each bucket is a non-empty list of records whose paths start at its key. The result is empty exactly when k <= 0 or the heap is empty. |
| Selection.BucketKeys | god_llm/core/god.py:370-375 | The buckets have a key exactly for the roots of popped paths. |
| Selection.BucketRecords | god_llm/core/god.py:370-375 | Each bucket holds exactly the popped records whose path starts at its root, in pop order. |
| Selection.RootRecords | god_llm/core/god.py:374-375 | Every record in a root's list has a path starting at that root. |
| Selection.Bucket | god_llm/core/god.py:370-375 | Every bucket is a non-empty list of records whose paths start at the bucket's root. There are no buckets exactly when nothing was popped. |
| Selection.BucketFrom | god_llm/core/god.py:370-375 | Every bucket key is the root of the path of some entry of the heap the records were popped from. |
| Selection.BucketTotal | god_llm/core/god.py:370-375 | The records across all buckets number exactly the popped entries. |
| Selection.PopStep | god_llm/core/god.py:373 | Moving the best remaining entry to the popped list keeps the entries, the pop order, and the separation between popped and unpopped entries. |
| Engine.TopRoots | god_llm/core/god.py:342-375 | Records popped from the candidates of all root paths are bucketed only under parentless nodes of the store. |
| Engine.God.Pray | god_llm/core/god.py:338-377 | Every candidate path is a leaf path. Popped plus unpopped entries are a permutation of the candidates of all paths, and `min(k, number of paths)` entries are popped, none for k <= 0. Pops come in non-increasing total, and nothing unpopped beats a popped entry. The result buckets each record under its path's root and holds as many records as were popped. Every bucket key is a parentless node of the store. The result is empty exactly when k <= 0 or the tree has no path. The ranked paths are exactly the leaf paths from parentless nodes, each once. k defaults to 3. |
| Base.Without | god_llm/core/god.py:279 | Removing a key from the order keeps every other key and drops the removed one. It removes nothing when the key is absent, and keeps the keys distinct. |
| Base.WithoutKeepsOrder | god_llm/core/god.py:279 | Removing a key keeps the relative order of the remaining keys: of two remaining keys, the one listed first after removal was listed first before it. |
| Base.WithoutAppended | god_llm/core/god.py:238-281 | Removing a freshly appended key gives the old order back. |
| Base.RemoveFirst | god_llm/core/god.py:273 | `list.remove` drops exactly the first occurrence, and everything before and after it stays in order. The length goes down by one and the multiset loses one copy. |
| Store.RemoveAppended | god_llm/core/god.py:239-273 | Removing an id just appended to a list without it gives the list back. |

## Left out

- The TF-IDF similarity (god_llm/core/god.py:107-119) uses numpy and a vectorizer that are not part of this model. It is the opaque parameter `sim`, applied to the two texts `prompt + " " + thought`. No symmetry is assumed.
- Language-model calls and template rendering in `expand`, `miracle`, `report` and `miracle_to_markdown` are left out. `Engine.God.Expand` takes the generated thought as a parameter.
- Engine.God.Expand: the recursion over generated follow-up questions and `max_iterations` (god_llm/core/god.py:251-263) are not modelled. The recursion's branching is entirely the model output's. Only the single-step store effect is modelled.
- Engine.God.Expand: the new node's identifier comes from `Node` in `.base`, which is not part of this model. It is the parameter `newId` and must be `Fresh`: not a key and not named by any relation.
- Engine.God.Expand: the message role of the prompt (`AIMessage` with a parent, `UserMessage` without) is not modelled. Only its content is.
- `Node.score` and `Node._compute_context_retention_score()` come from `.base`, which is not part of this model. They are fields `score` and `retention` supplied with each node.
- Relevance.Recency: the wall clock is not read. The node's age in seconds is the parameter `elapsed`, and every node is assumed to carry a creation timestamp.
- Relevance.Lower: lower-cases only ASCII letters. Python's `str.lower` also lowers other alphabets.
- The scores use exact real arithmetic. Floating-point rounding of `np.mean` and of the weighted sums is not modelled.
- Selection.TakeTop: Python's heap compares `(-total, details)` tuples, so two paths with the same total make it compare dictionaries and raise `TypeError`. The model breaks such ties by discovery order instead. It also replaces the binary heap layout with a selection of the best remaining entry, which pops the same entries in the same order whenever totals are distinct.
- Engine.God.Pray: the metric dictionary of each record is keyed by the metric itself, not its string value. The order of keys in the returned dictionary is not modelled.
- Engine.God.constructor: `max_iterations` (default 4) is not a field, because it only bounds the recursion of `expand`, which is not modelled. The `llm`, `template_manager` and `debug` arguments are left out with the calls they serve. The other defaults (threshold 0.7, window 3) are modelled as default parameter values, and so are `k = 3` for `Engine.God.Pray` and `parent_id = None` for `Engine.God.Expand`.
- Engine.God.Expand: requires a given parent to be a key of the store. Otherwise the source first raises `KeyError` at god_llm/core/god.py:70, in the context walk, when the window is positive. It raises at god_llm/core/god.py:239 when the window is not positive. The engine invariant `Valid()` makes every ancestor present, so the walk cannot raise once the parent is present.
- Engine.God.AddNode: requires the parent, when given, to be present. The source raises `KeyError` at god_llm/core/god.py:239 otherwise.
- Engine.God.BuildContextHistory: requires `ParentsPresent`: every parent link names a present node. The source raises `KeyError` at god_llm/core/god.py:71 on a dangling parent link. `Valid()` implies `ParentsPresent`, so `expand` never hits that error.
- Engine.God.FindPaths: requires every listed child to be present (`ChildrenPresent`), as `Paths.PathsFrom` does. The source raises `KeyError` at god_llm/core/god.py:384 otherwise. `Valid()` implies this, so `pray` never hits that error.
- Engine.God.DeleteNode: requires that a present node with a present parent is listed among that parent's children. Otherwise `list.remove` raises `ValueError` in the source.
- `miracle`, `report`, `miracle_to_markdown`, `visualize` and all logging are left out. They are language-model calls, presentation and I/O outside the tree logic.
