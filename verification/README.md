# A verified model of radicle-link's core

This project models seven parts of radicle-link in Dafny and proves what they are for.

* **Collaborative objects.** `Graph`, `ChangeGraph`, `PruningFold`, `HistoryGraph`, `History`,
  `Traversal`, `Evaluation`, `CobSpec` and `Cob` model how an object is loaded from the commit graph
  by a walk backwards from its references, checked and pruned by a fold, turned into a history, and
  cached under the exact set of reference tips. A repository is a finite acyclic parent relation with a
  change for some of its commits; loading a change, checking it and creating its commit are
  parameters. The main result is that the cache cannot be seen on references with one root and no
  rejected change: whatever sequence of retrievals, updates and replications happens, an object
  that comes from the cache then has the same entries, contents and ancestor relation as a fresh
  load and evaluation would give, and an update keeps references that way if and only if its
  change is accepted. After an update with a rejected change the cache can be seen.
* **Canonical JSON.** `CanonicalJson` models the formatter as a machine with a stack of object
  buffers and proves that serializing any value appends a recursively defined rendering with
  sorted keys, that the order of object members does not matter, and that the last of several
  equal keys wins. Normalization form C is a parameter.
* **Identities.** `Delegation`, `Identities` and `Merging` model delegations, the verification
  states, the fold that verifies a history, and merges. The result of the fold is explained by a
  chain of identities from the root to the head; two histories with the same start go the
  same way unless a voter signed both ways to go on. Signature validity is a parameter.
* **Trailers.** `Trailers` models the parser and the printer and proves exactly which
  trailers, after which texts, are read back as they were printed.
* **Reference names.** `Path`, `RefFormat` and `RefNames` model the check of a name against the
  rules of the git-check-ref-format manual page, and the operations on names.
* **Replication.** `RefStore`, `Replication`, `Validation` and `WantsHaves` model planning updates
  from signed references, applying them, validating the result, and the negotiation of objects.
* **Schedulers.** `Tasks` models the future that drives a stream of tasks, `Processes` the pool
  of git subprocesses. Both are state machines whose environment (what a stream yields, which
  tasks are ready, which events occur) is an arbitrary input.

Where the original can abort, the model returns `Panicked` from an `Outcome`. Preconditions stand
for what the original takes for granted without a check.

## Where the code and its documentation differ

The model follows the code.

* `ChangeGraph::evaluate` is documented to filter out rejected branches. The entry of an accepted
  change still lists its rejected children (cob/src/change_graph/evaluation.rs:109-114), and
  building the history looks every child up (cob/src/history.rs:153), so evaluation aborts unless
  everything below the root is accepted: `Evaluation.Evaluate`, `Evaluation.RejectedChildNotFiltered`.
* A history is documented to be traversed with parents first. An id that is a child of two entries
  gets two nodes (cob/src/history.rs:153-155), so it is traversed once each and parents first if
  and only if no id is listed twice: `History.TraversalParentsFirst`. Some order has an entry before
  a parent of it if and only if some id is listed by two entries, or twice by one and has children:
  `Traversal.ParentsFirstIff`, `Traversal.DiamondOrder`.
* The tips are meant to be the entries without children. Of several nodes of an id the one made
  last is looked up (cob/src/history.rs:148-155), so they are if and only if no entry with children
  is listed before a sibling that leads to it: `History.TipsExactIff`, `History.ShortcutTips`.
* `History::extend` does not register the node it adds (cob/src/history.rs:102-125), so a second
  extension of the same object aborts: `History.ExtendTwice`.
* `History::extend` lists the new entry as a child in the entries and not in the nodes of the graph
  (cob/src/history.rs:116-123), and a traversal prunes by the nodes (cob/src/history.rs:91-97). So
  it never prunes the new entry, which is right if and only if it broke on none of the others:
  `Traversal.ExtendedTraversal`, `Traversal.TipBreak`.
* `update` does not check whether the new change is authorized (cob/src/lib.rs:506-575). One
  that is not goes into the cache and can be served from there, while evaluation aborts on it:
  `Cob.ServedButRejected`.
* `create_object` stores the new object under the author's commit (cob/src/lib.rs:393-394). This
  only costs a miss: `Cob.Store.Create`.
* `update_from` is documented to leave only the merger's signature on an approved next revision.
  The code keeps the signatures that were there and adds one: `Merging.NextRevisionCollects`.
* A confirmation of the first identity of a history is verified without a parent, so its root is
  compared with nothing: `Identities.RootNotCompared`. The head has the root of the first identity
  if and only if the last sound one that replaces nothing has it: `Identities.HeadKeepsRootIff`.
* The check of a reference name claims the rules of the git-check-ref-format manual page. It looks
  at the last character of a component together with its first, and so refuses valid names such as
  `{a@`; and it applies the rule against a final dot to every component, and so refuses valid names
  such as `a./b`. These are all it refuses wrongly: `RefFormat.CheckRefFormat`,
  `RefFormat.WrappingRefused`, `RefFormat.InnerDotRefused`.
* `Namespaced::strip_namespace` claims to return a qualified name; it does so if and only if there
  are at least six components, and not for `refs/namespaces/a/refs`: `RefNames.StrippingValid`,
  `RefNames.StrippedUnqualified`.
* Stale references are spared from pruning by a string prefix, so a category that merely begins
  with "rad" is spared too and then reported: `Validation.UnexpectedIff`, `Validation.RadxIsStale`.
* A signed reference is reported as missing after the very updates that were planned from it if and
  only if a signed name is already below a peer or in a namespace: `Validation.MissingIff`,
  `Validation.RerootedStrays`.
* `remote_tracking` is documented to be the identity on names below "refs/remotes/". The code puts
  such a name below the peer it is given: `RefStore.TrackingReroots`.
* The cap on running git processes is compared with `>`, so one more than the cap can run:
  `Processes.RunsWithinCap`, `Processes.CapReached`.
* A process id that is started again while in use leaves a running process without a sender of its
  own, and this is the only way to it: `Processes.SendersIffNoReuse`, `Processes.ReuseLosesSender`.

## Model

| member | source | states |
|---|---|---|
| `ChangeGraph.GraphBuilder.AddChange` | cob/src/change_graph.rs:170-196 | a known commit changes nothing; a new one becomes a node, and exactly the edges to its non-identity parents are returned |
| `ChangeGraph.GraphBuilder.HasEdge` | cob/src/change_graph.rs:198-205 | true exactly if both ends are known and joined |
| `ChangeGraph.GraphBuilder.AddEdge` | cob/src/change_graph.rs:207-212 | adds the one edge between two known commits and nothing else |
| `ChangeGraph.GraphBuilder.Build` | cob/src/change_graph.rs:214-235 | a graph with the nodes and edges collected, or none if there are none |
| `ChangeGraph.WalkAll` | cob/src/change_graph.rs:75-89 | processing the stack, duplicates included, terminates on every acyclic repository and keeps the walk invariant until nothing is pending |
| `ChangeGraph.Load` | cob/src/change_graph.rs:47-90 | the nodes are exactly the loadable tips closed under loadable non-identity parents, the edges exactly those between them; none exactly if that is empty |
| `ChangeGraph.LoadOrderIrrelevant` | cob/src/change_graph.rs:47-90 | nodes up to their order, edges and tips depend on the references only as a set, not on their order or on how often they are given |
| `ChangeGraph.TipsAreReferenced` | cob/src/change_graph.rs:133-141 | the tips of a loaded graph are always among the referenced commits |
| `PruningFold.AncestorsFirst` | cob/src/pruning_fold.rs:26-59 | in a topological listing every ancestor comes before its descendants |
| `PruningFold.PrunedByParent` | cob/src/pruning_fold.rs:69-96 | a node has a broken proper ancestor exactly if a parent is broken or has one |
| `PruningFold.LaterBreaksIrrelevant` | cob/src/pruning_fold.rs:26-59 | breaking on a later node neither prunes nor unprunes an earlier one |
| `PruningFold.RejectedNodes.RejectChildren` | cob/src/pruning_fold.rs:69-96 | marks exactly the children with the rejected ancestor and keeps the other marks |
| `PruningFold.Fold` | cob/src/pruning_fold.rs:26-59 | on every topological listing the result is that of applying the function, in order, to exactly the nodes without a broken proper ancestor, and every recorded rejected ancestor is a real one |
| `HistoryGraph.CreatePetgraph` | cob/src/history.rs:143-161 | terminates on every acyclic map and returns exactly if every id reachable from the root has an entry; the nodes are then the root and one node per listed child of a visited node, visited in the order of the stack |
| `HistoryGraph.BuildDone` | cob/src/history.rs:143-161 | the ids of the nodes are exactly those reachable from the root, and two ids are joined by an edge exactly if the second is a child of the first and the first is reachable |
| `HistoryGraph.NodeCount` | cob/src/history.rs:153-155 | an id has one node per visit that lists it, plus one if it is the root |
| `HistoryGraph.OneNodeIffUnshared` | cob/src/history.rs:153-155 | every id has one node if and only if no id below the root is listed twice as a child |
| `HistoryGraph.DiamondDuplicates` | cob/src/history.rs:153-155 | two branches that meet again give the common entry two nodes |
| `History.LeavesAreTips` | cob/src/history.rs:127-135 | every reachable entry without children is a tip, shared children or not |
| `History.TipsExactIff` | cob/src/history.rs:127-135 | the tips are exactly the reachable entries without children if and only if no reachable entry lists a child that has children before a sibling that leads to it |
| `History.OvertakenIsTip` | cob/src/history.rs:148-155 | a child listed that way is a tip although it has children |
| `History.ShortcutTips` | cob/src/history.rs:127-135 | the smallest such history has a tip with a child |
| `History.DiamondTips` | cob/src/history.rs:127-135 | two branches that meet in a last entry have exact tips although that entry is listed twice |
| `History.TraversalParentsFirst` | cob/src/history.rs:87-98 | every topological order of the graph lists the reachable entries, and it lists them once each and parents first if and only if no id below the root is listed twice |
| `History.History.Extend` | cob/src/history.rs:102-125 | aborts exactly if a tip has no registered node; otherwise the new entry is a child of every tip and of nothing else, all other entries are kept, the graph gets one node and an edge from the registered node of every tip while all other nodes keep their child lists, and the new id is a tip |
| `History.ExtendTwice` | cob/src/history.rs:102-125 | a second extension of a history always aborts |
| `Traversal.ParentsFirstIff` | cob/src/history.rs:87-98 | every topological order of the graph lists no entry at or before a parent of it if and only if no id is listed by two reachable entries, or twice by one although it has children |
| `Traversal.DiamondOrder` | cob/src/history.rs:87-98 | some order of two branches that meet lists the common entry before one of its parents |
| `Traversal.TwinsOrder` | cob/src/history.rs:87-98 | an entry without children that one entry lists twice never comes before its parent |
| `Traversal.BuiltIsExtensible` | cob/src/history.rs:102-125 | every history that was built can be extended by a new entry without children: all its tips are registered |
| `Traversal.ExtendedPrunes` | cob/src/history.rs:102-125 | whatever entries a traversal of an extended history broke on, it prunes the others as the entries say and never the new one, which is as the entries say if and only if it broke on no other |
| `Traversal.ExtendedTraversal` | cob/src/history.rs:87-98 | the same for every traversal with every function |
| `Traversal.TipBreak` | cob/src/history.rs:116-123 | breaking on an old tip does not prune the entry appended below it |
| `Traversal.LoneBreak` | cob/src/history.rs:116-123 | the smallest such history has one entry |
| `Traversal.ExtendedParentsFirst` | cob/src/history.rs:87-98 | an extended history is traversed once each and parents first if and only if no id was listed twice before |
| `History.New` | cob/src/history.rs:63-79 | a missing root is an error; otherwise a history exactly if every reachable id has an entry |
| `Evaluation.PrunedIffRejectedAncestor` | cob/src/change_graph/evaluation.rs:40-65 | with a check that depends on the change only, a change is pruned exactly if a proper ancestor is rejected |
| `Evaluation.AcceptedEntries` | cob/src/change_graph/evaluation.rs:40-65 | for every topological listing the fold has entries for exactly the changes that are accepted together with all their ancestors |
| `Evaluation.Topo` | cob/src/change_graph.rs:111-119 | every choice of ready nodes lists all nodes of an acyclic graph once, in topological order |
| `Evaluation.HistoryIffAllClean` | cob/src/change_graph/evaluation.rs:109-114 | the history can be rebuilt from the entries if and only if everything below the root is accepted with all its ancestors |
| `Evaluation.Evaluate` | cob/src/change_graph.rs:96-130 | returns a history of exactly the accepted changes from a root of the graph if and only if everything below that root is accepted, and aborts otherwise |
| `Evaluation.EvaluationOrderIrrelevant` | cob/src/change_graph/evaluation.rs:40-65 | two evaluations of a graph agree on ids, authors, contents and children as a set |
| `Evaluation.SingleRootAllAccepted` | cob/src/change_graph.rs:96-130 | with a single root evaluation succeeds if and only if no change is rejected |
| `Evaluation.RejectedChildNotFiltered` | cob/src/change_graph/evaluation.rs:109-114 | a rejected child of an accepted root makes evaluation abort |
| `CobSpec.FreshAgrees` | cob/src/lib.rs:650-672 | on references with one root and no rejected change, a fresh load and evaluation has the ids, authors, contents and ancestor relation of the changes the references lead to |
| `CobSpec.CleanIsGood` | cob/src/change_graph.rs:96-130 | with one root, everything below it being accepted means that no change is rejected |
| `CobSpec.GrownAgrees` | cob/src/lib.rs:629-674 | commits added to the repository do not change what old references lead to, nor what agrees with it |
| `CobSpec.CommitAncestry` | cob/src/lib.rs:546-557 | after a commit on top of all tips, the new tips lead to the old changes and the new one |
| `CobSpec.CommitKeepsRoot` | cob/src/lib.rs:546-557 | a commit on top of all tips keeps the root of the object |
| `CobSpec.CommitGood` | cob/src/lib.rs:506-575 | an object with one root and no rejected change after an update was one before |
| `CobSpec.CommitGoodIff` | cob/src/lib.rs:506-575 | an object has one root and no rejected change after an update if and only if it had before and the change is accepted |
| `CobSpec.ExtendedAgrees` | cob/src/history.rs:102-125 | appending the new entry below the cached tips agrees with what a fresh load of the new references finds, ancestor relation included |
| `Cob.CachedChangeGraph.UpdateRef` | cob/src/cache/cached_change_graph.rs:58-70 | the previous local tip is replaced by the new commit, and the entries and the graph of the history are extended by its entry |
| `Cob.Store.LoadCached` | cob/src/cache.rs:91-122 | a hit exactly if something is stored for exactly the known references, and then what was stored |
| `Cob.Store.Put` | cob/src/cache.rs:125-136 | replaces the slot with a cache directory, and stores nothing without |
| `Cob.Store.Materialize` | cob/src/lib.rs:650-672 | nothing exactly if no reference leads to a change; on good references a history that agrees with them, and with one root an abort exactly if the references are not good |
| `Cob.Store.LoadOrMaterialize` | cob/src/lib.rs:629-674 | keeps the cache invariant; hit or miss, on good references the result agrees with a fresh load and evaluation of the current tips |
| `Cob.Store.Replicate` | cob/src/lib.rs:629-674 | the cache invariant survives any added commits and any movement of remote references |
| `Cob.Store.Create` | cob/src/lib.rs:356-408 | a signer who is not the author and a failed write of the reference are errors that leave reference and cache alone; the new object is good if and only if its change is accepted, then agrees with its only reference, and the cache entry it leaves is stored under other references, so it is never returned for the object |
| `Cob.Store.Retrieve` | cob/src/lib.rs:412-434 | on good references the entries agree with a fresh load and evaluation |
| `Cob.Store.Update` | cob/src/lib.rs:506-575 | keeps the cache invariant whether or not the change is accepted and the reference is written; a signer who is not the author, an object without changes and a failed write are errors; an object is returned whenever the old references are good; the new references are good if and only if the old ones were and the change is accepted, and then the object agrees with them |
| `Cob.ServedButRejected` | cob/src/lib.rs:506-575 | after an update with a rejected change evaluation aborts, and the object is served from the cache if and only if no remote holds the previous local tip |
| `CanonicalJson.CanonicalFormatter.Write` | link-canonical/src/formatter.rs:78-88 | bytes go to the key or the value in progress of the innermost open object, or to the output, and nowhere else |
| `CanonicalJson.CanonicalFormatter.BeginObject` | link-canonical/src/formatter.rs:187-191 | opens an empty object above what is there |
| `CanonicalJson.CanonicalFormatter.BeginObjectKey` | link-canonical/src/formatter.rs:219-223 | fails without an open object, and otherwise directs writes to the key |
| `CanonicalJson.CanonicalFormatter.EndObjectKey` | link-canonical/src/formatter.rs:225-229 | fails without an open object, and otherwise directs writes to the value |
| `CanonicalJson.CanonicalFormatter.EndObjectValue` | link-canonical/src/formatter.rs:235-241 | moves the finished member into the ordered map and empties both buffers |
| `CanonicalJson.CanonicalFormatter.EndObject` | link-canonical/src/formatter.rs:193-217 | closes the innermost object and writes its pairs in the order of their keys where writing then goes |
| `CanonicalJson.CanonicalFormatter.Play` | link-canonical/src/formatter.rs:127-241 | in every state of the formatter, serializing a value fails exactly if it holds a finite floating-point number, and otherwise appends exactly its sorted rendering, with null for the other floating-point numbers, to the current buffer and leaves the rest of the stack and the output alone |
| `CanonicalJson.CollectIncreasing` | link-canonical/src/formatter.rs:193-217 | the keys of an object come out strictly increasing by their rendered bytes |
| `CanonicalJson.LastEntryWins` | link-canonical/src/formatter.rs:235-241 | the value written for a key is that of the last member whose key renders that way |
| `CanonicalJson.NoEntry` | link-canonical/src/formatter.rs:235-241 | no key is written that no member has |
| `CanonicalJson.ListingUnique` | link-canonical/src/formatter.rs:193-217 | a strictly increasing listing is determined by what it maps each key to |
| `CanonicalJson.OrderIrrelevant` | link-canonical/src/formatter.rs:193-241 | trees that differ only in the order of object members, with distinct rendered keys at every depth, have identical bytes |
| `Delegation.CountVotes` | link-identities/src/delegation/indirect.rs:127-145 | in every order of the keys the fold returns the delegated keys that vote, or an error exactly if two keys of one owner vote |
| `Delegation.ThresholdIsHalf` | link-identities/src/delegation/indirect.rs:296-305 | the threshold is half the number of voters: keys on their own, and identities |
| `Delegation.QuorumsIntersect` | link-identities/src/generic.rs:367-386 | two vote sets that both reach the quorum of the same delegations have a voter in common |
| `Delegation.MoreVotes` | link-identities/src/delegation/indirect.rs:127-145 | adding votes keeps a quorum if and only if no owner then votes twice |
| `Delegation.QuorumCanBeLost` | link-identities/src/delegation/indirect.rs:127-145 | one more vote can cost an indirect delegation its quorum |
| `Identities.SoundIff` | link-identities/src/generic.rs:307-386 | an identity passes signed and quorum exactly if it has signatures, all valid, from more than half of its own voters |
| `Identities.SucceedsIff` | link-identities/src/generic.rs:409-455 | an identity is verified against a parent exactly if it has the parent's root, replaces the parent's revision and has a quorum of the parent's delegations |
| `Identities.AdvanceIsChain` | link-identities/src/generic.rs:495-532 | a step of the fold leaves the chain, replaces its last identity by a confirmation, or grows it by a successor, and it stays a chain that ends in parent and head |
| `Identities.HeadJoinsRoot` | link-identities/src/git.rs:201-224 | a history that verifies has a chain of its own items, in order, from one that replaces nothing and has the first revision to the head, each sound, each replacing the revision before with a quorum of the delegations before, all with one root |
| `Identities.ChainVerifies` | link-identities/src/git.rs:201-224 | conversely, every chain of sound identities, each with a new revision and succeeding the one before, from one that replaces nothing verifies to its last |
| `Identities.PrefixOnChain` | link-identities/src/generic.rs:495-532 | every prefix of progeny that folds folds, and its revisions begin those of the whole |
| `Identities.PrefixHeadStays` | link-identities/src/git.rs:201-224 | the head verified for any prefix of a history has a revision on the chain of the whole |
| `Identities.ProposalsInvisible` | link-identities/src/generic.rs:500-504 | removing all signed proposals below quorum changes nothing, errors included |
| `Identities.QuorumsDecide` | link-identities/src/generic.rs:495-532 | histories that differ only in signed proposals below quorum verify alike |
| `Identities.ForkNeedsDoubleSigner` | link-identities/src/generic.rs:434-450 | two successors of the same identity have a voter of that identity in common who signed both |
| `Identities.HistoriesFork` | link-identities/src/git.rs:201-224 | of two histories that verify and begin with the same revision, the revisions of one chain begin those of the other, or at the first difference a voter of the last common document validly signed both |
| `Identities.HeadKeepsRoot` | link-identities/src/generic.rs:482-533 | if equal revisions come with equal roots, the head has the root of the first identity |
| `Identities.HeadKeepsRootIff` | link-identities/src/generic.rs:482-533 | in every history that verifies the head has the root of the last sound identity that replaces nothing, so it has the first root if and only if that one has it |
| `Identities.RootNotCompared` | link-identities/src/generic.rs:513-521 | a confirmation of the first identity is accepted whatever its root is |
| `Merging.MergeKeeps` | link-identities/src/git.rs:316-407 | a merge of signed identities keeps the common root, carries the merger's key and is signed again |
| `Merging.SameRevisionCollects` | link-identities/src/git.rs:365-384 | a merge of the same revision has the signers of both, and keeps a quorum of either if and only if no owner votes twice in the union |
| `Merging.NextRevisionCollects` | link-identities/src/git.rs:385-405 | an approved next revision has its previous signers and the merger, and keeps its quorum if and only if no owner votes twice |
| `Merging.RunKeeps` | link-identities/src/git.rs:316-407 | over any sequence of merges every identity is signed, and none has a revision, document or root that was not there before |
| `Merging.RunKeepsQuorum` | link-identities/src/git.rs:316-407 | in any run, with delegations to keys, a merge of the same revision never loses a quorum |
| `Trailers.LineBack` | git-trailers/src/lib.rs:274-289 | a value is read back in front of a line break, or at the end of the text even after a carriage return that is no line ending, and the rest is what follows the line break |
| `Trailers.UntilEolSplits` | git-trailers/src/lib.rs:274-289 | for every text: the line, its ending and the rest make up the text, and where the first line ending character is none, or there is none, the whole text is the line |
| `Trailers.ValuesBack` | git-trailers/src/lib.rs:261-283 | the values of a trailer, none, one or several lines, are read back from their rendering, but for a first one that is empty |
| `Trailers.TrailerBack` | git-trailers/src/lib.rs:241-256 | a rendered trailer is read back, whatever separator between blanks it was rendered with |
| `Trailers.ParagraphBack` | git-trailers/src/lib.rs:236-238 | rendered trailers are read back and nothing is left |
| `Trailers.LastParagraph` | git-trailers/src/lib.rs:226-232 | the last paragraph is what follows the last empty line, with a line break in front exactly if an odd number of line breaks stands before that empty line |
| `Trailers.ParagraphsJoin` | git-trailers/src/lib.rs:226-232 | for every text: its paragraphs joined by empty lines are the text |
| `Trailers.TrimDisplayMany` | git-trailers/src/lib.rs:175-177 | trimming rendered trailers cuts at most the blanks after the last separator |
| `Trailers.ParseDisplay` | git-trailers/src/lib.rs:175-192 | parsing any text, an empty line and the rendering of any non-empty list of trailers returns that list if and only if the text ends in an even number of line breaks, tokens are of token characters, values have no line breaks or indentation, no first value is empty and the last value does not end in white space; only that last value may hold line breaks, after a carriage return that is none |
| `Trailers.ParseDisplayNormal` | git-trailers/src/lib.rs:175-192 | first values that are empty are dropped; after an odd number of line breaks nothing is parsed |
| `Trailers.ParsedValues` | git-trailers/src/lib.rs:261-283 | for every message: the values parsed have no line breaks or indentation, but for the last of all, which does not end in white space |
| `Trailers.ParsedTokens` | git-trailers/src/lib.rs:248-251 | for every message: each trailer parsed has a non-empty token of token characters |
| `Trailers.PlainText` | git-trailers/src/lib.rs:226-232 | text that does not end in a line break meets that condition |
| `Trailers.UsualLayout` | git-trailers/src/lib.rs:114-123 | the separator ": " and the indentation of two spaces are covered |
| `RefFormat.CheckComponent` | git-ref-format/core/src/check.rs:57-92 | a component passes exactly if it keeps the rules and does not wrap from an at sign to an opening brace; stars are counted, and an error names a rule that is broken |
| `RefFormat.CheckComponents` | git-ref-format/core/src/check.rs:56-93 | all components pass, and the stars of the name are counted |
| `RefFormat.CheckRefFormat` | git-ref-format/core/src/check.rs:47-106 | for all strings and options: accepted if and only if in the declared language, no component begins with an opening brace and ends with an at sign, and no component before the last ends in a dot; every error names what is wrong |
| `RefFormat.AcceptedIff` | git-ref-format/core/src/check.rs:56-93 | the rules component by component are the declared rules on the whole name and these two |
| `RefFormat.WrappingRefused` | git-ref-format/core/src/check.rs:68 | a declared name of one such component is refused |
| `RefFormat.WrappingExists` | git-ref-format/core/src/check.rs:68 | `{a@` is such a component |
| `RefFormat.InnerDotRefused` | git-ref-format/core/src/check.rs:84 | every declared name of two components the first of which ends in a dot is refused |
| `RefFormat.InnerDotExists` | git-ref-format/core/src/check.rs:84 | `a./b` is such a name |
| `RefNames.ValidIff` | git-ref-format/core/src/name.rs:276-283 | a name is valid exactly if its components are and it is not the lone at sign |
| `RefNames.JoinedValid` | git-ref-format/core/src/name.rs:166-177 | joining gives a valid name, even if the parts are lone at signs |
| `RefNames.StripPrefixIff` | git-ref-format/core/src/name.rs:155-160 | stripping a prefix gives what was joined to it, and nothing otherwise |
| `RefNames.StripPrefixValid` | git-ref-format/core/src/name.rs:155-160 | what is left of a valid name is valid or the lone at sign |
| `RefNames.RefString.FromIter` | git-ref-format/core/src/name.rs:490-508 | collecting joins the names with slashes |
| `RefNames.RefString.Push` | git-ref-format/core/src/name.rs:325-331 | the components of the other name are appended, and the result is valid |
| `RefNames.RefString.Pop` | git-ref-format/core/src/name.rs:333-342 | drops exactly the last component unless it is the only one |
| `RefNames.RefString.Extend` | git-ref-format/core/src/name.rs:510-522 | pushes all names in order |
| `RefNames.PushPop` | git-ref-format/core/src/name.rs:325-342 | popping undoes pushing one component |
| `RefNames.CollectComponents` | git-ref-format/core/src/name.rs:490-508 | a collected name has the components of all the names in order |
| `RefNames.CollectValid` | git-ref-format/core/src/name.rs:490-508 | a collected name is valid or the lone at sign |
| `RefNames.CollectIdentity` | git-ref-format/core/src/name/iter.rs:24-44 | collecting the components of a name gives the name back |
| `RefNames.FromComponents` | git-ref-format/core/src/deriv.rs:40-50 | the result has "refs" and the given components and is a valid qualified name |
| `RefNames.AddStrip` | git-ref-format/core/src/deriv.rs:86-92 | adding a namespace gives a namespaced name from which the namespace and the original name can be read back |
| `RefNames.NamespacingValid` | git-ref-format/core/src/deriv.rs:86-92 | adding a namespace keeps names valid |
| `RefNames.StrippingValid` | git-ref-format/core/src/deriv.rs:341-351 | stripping a namespace keeps names valid, and the result is qualified if and only if there were six components |
| `RefNames.StrippedUnqualified` | git-ref-format/core/src/deriv.rs:341-351 | what is left of the valid name `refs/namespaces/a/refs` is not qualified |
| `RefNames.StripNamespaceRecursive` | git-ref-format/core/src/deriv.rs:353-359 | the loop terminates with a name that is not namespaced |
| `RefNames.StripAllUndoes` | git-ref-format/core/src/deriv.rs:353-359 | recursive stripping undoes any nesting of namespaces around a qualified name that has none |
| `Path.SplitJoin` | git-ref-format/core/src/name.rs:200-206 | splitting what was joined gives the parts back |
| `Path.PrefixOfJoin` | link-replication/src/fetch.rs:128-136 | a name begins with another as a string exactly if all but the last component are equal and the last begins the same |
| `RefStore.TrackedInjective` | link-replication/src/refs/scoped.rs:65-100 | different plain names stay different below a peer |
| `RefStore.TrackingShape` | link-replication/src/refs/scoped.rs:65-100 | a name that can be tracked is tracked below the peer, and gets longer exactly if it is below no peer and in no namespace |
| `RefStore.TrackingReroots` | link-replication/src/refs/scoped.rs:73-83 | a name that is already below a peer is moved below the given one |
| `RefStore.TrackingIgnoresNamespaces` | link-replication/src/refs/scoped.rs:85-90 | namespaces, however deeply nested, make no difference to the tracking name |
| `RefStore.ParseTracked` | link-replication/src/refs/parsed.rs:89-156 | parsing a tracking name gives the peer and the name back, outside of "rad" |
| `RefStore.ParseRadIff` | link-replication/src/refs/parsed.rs:106-117 | a rad reference of a peer is parsed exactly from the name it stands for |
| `RefStore.ParsePlain` | link-replication/src/refs/parsed.rs:146-153 | a name outside of "rad" that is below no peer is parsed as it is |
| `RefStore.ScannedIsPrefix` | link-replication/src/fetch.rs:128-131 | which names a scan for a peer yields, by string prefix |
| `RefStore.SparedIsPrefix` | link-replication/src/fetch.rs:129-136 | which names are spared from pruning, by string prefix |
| `RefStore.Mem.Update` | link-replication/src/refdb/mem.rs:40-83 | the store after the direct updates, symbolic updates and prunes in order |
| `Replication.PreparePeer` | link-replication/src/fetch.rs:112-145 | the updates of one peer: one for every signed reference, and a prune for every scanned one that is neither signed nor spared; aborts exactly if a signed name is not qualified or cannot be tracked |
| `Replication.Prepare` | link-replication/src/fetch.rs:107-151 | the updates of all peers in order, unless a signed name of some peer cannot be tracked |
| `Replication.PeerPlanEffect` | link-replication/src/fetch.rs:112-145 | whatever names are signed, applying a peer's plan sets every name to the tip signed last for what is tracked there, removes it, or leaves it alone, as the reference definition says |
| `Replication.PlanEffect` | link-replication/src/fetch.rs:107-151 | below a peer the plan for all peers does exactly what the plan for that peer does |
| `Validation.Validate` | link-replication/src/validation.rs:51-148 | reports exactly the failures there are: malformed, unexpected, mismatched and missing references, and missing data |
| `Validation.MissingIff` | link-replication/src/validation.rs:134-144 | after the planned updates a signed reference outside of "rad" is missing if and only if one of the signed names is below a peer or in a namespace |
| `Validation.MismatchedIff` | link-replication/src/validation.rs:105-114 | after the planned updates a reference has another tip than was signed if and only if a signed name is tracked where it is read back as that reference, and the tip signed last for that place is another |
| `Validation.UnexpectedIff` | link-replication/src/validation.rs:115-117 | after the planned updates a reference is unexpected if and only if the store had an unsigned one in a category that merely begins with "rad", or a signed name is tracked where it is read back as one that is not signed |
| `Validation.RadxIsStale` | link-replication/src/fetch.rs:128-136 | `refs/remotes/p/radx/a` is such an unsigned reference |
| `Validation.PlainIsClean` | link-replication/src/validation.rs:99-144 | with signed names below no peer and in no namespace nothing is missing or mismatched, and only what was left behind by the prefix is unexpected |
| `Validation.RerootedStrays` | link-replication/src/validation.rs:115-117 | a signed name below some peer makes the name itself missing and the one it stands for unexpected |
| `WantsHaves.BuildWantsHaves.AddOne` | link-replication/src/transmit.rs:155-170 | the tip is present or wanted afterwards, and everything offered is present |
| `WantsHaves.BuildWantsHaves.Add` | link-replication/src/transmit.rs:150-171 | the same for every advertised reference |
| `WantsHaves.BuildWantsHaves.AddSigned` | link-replication/src/fetch.rs:176-196 | the same for every signed reference; stops at the first name that is not qualified or cannot be tracked, with an error that names it, or aborts where computing the tracking name does |
| `WantsHaves.BuildWantsHaves.Build` | link-replication/src/transmit.rs:173-177 | the wanted objects less the offered ones, or nothing if none are left |
| `WantsHaves.Negotiate` | link-replication/src/fetch.rs:162-200 | succeeds exactly if all signed names can be tracked, and an error names one that cannot; then wants and haves are disjoint, nothing is wanted that is seen to be there, and once the wants have arrived every signed and advertised tip is present, however many present objects the test misses |
| `Tasks.TaskRunner.Pull` | link-async/src/tasks.rs:231-243 | takes everything the stream has ready, up to its end |
| `Tasks.TaskRunner.TakeNew` | link-async/src/tasks.rs:222-265 | what was pulled is outstanding; the end of the stream is recorded exactly if there are or were tasks to service, and otherwise the state stays idle |
| `Tasks.TaskRunner.Complete` | link-async/src/tasks.rs:272-287 | the task is finished; an error under the returning policy hands back exactly the other ongoing tasks |
| `Tasks.TaskRunner.Service` | link-async/src/tasks.rs:266-288 | exactly the ready tasks are taken from the ongoing ones |
| `Tasks.TaskRunner.Advance` | link-async/src/tasks.rs:266-321 | done when the idle time is over or it was done before, and otherwise only after the stream ended and everything is finished; pending only while idle or with tasks ongoing |
| `Tasks.TaskRunner.PollOnce` | link-async/src/tasks.rs:215-323 | every task the stream yielded is finished, ongoing or handed back; done is reported only with none outstanding; once finishing or done the stream is never polled again |
| `Tasks.TaskRunner.Run` | link-async/src/tasks.rs:215-323 | over any sequence of polls: done means every task ever pulled is finished, and an error hands back all that are not |
| `Processes.Processes.ExecGit` | cli/gitd-lib/src/processes.rs:213-235 | one more process runs, and its id has a sender |
| `Processes.Processes.HandleCompleted` | cli/gitd-lib/src/processes.rs:298-330 | the process and the sender of its id are gone; a crash unwinds |
| `Processes.Processes.HandleIncoming` | cli/gitd-lib/src/processes.rs:332-358 | only a stop changes the state, and only data for a receiver that is gone is an error |
| `Processes.Processes.Run` | cli/gitd-lib/src/processes.rs:273-296 | the loop does what the transition relation says, for every sequence of events |
| `Processes.RunsWithinCap` | cli/gitd-lib/src/processes.rs:275-280 | in every run at most one process more than the cap is running |
| `Processes.CapReached` | cli/gitd-lib/src/processes.rs:275-280 | any number up to one more than the cap can run |
| `Processes.SendersAlwaysRun` | cli/gitd-lib/src/processes.rs:213-235 | in every run only ids of running processes have a sender |
| `Processes.SendersIffNoReuse` | cli/gitd-lib/src/processes.rs:213-235 | throughout a run the ids with a sender are those of the running processes, one each, if and only if no process that is started reuses the id of a running one |
| `Processes.ReuseLosesSender` | cli/gitd-lib/src/processes.rs:302-304 | starting an id again while in use leaves a running process without a sender when one of the two ends |
| `Processes.NothingStarts` | cli/gitd-lib/src/processes.rs:275-280 | once stopping, always stopping, and nothing is started |
| `Processes.FinishedMeans` | cli/gitd-lib/src/processes.rs:282-284 | the loop ends well only if it was told to stop and nothing is running |
| `Processes.StoppingEnds` | cli/gitd-lib/src/processes.rs:281-287 | a stopping pool ends exactly when as many processes have ended as were running, one less with each |

## Left out

- Git object access, the encodings of changes, identities and caches, the file system cache's temporary files: they are input and output; creating a change and loading it again is taken to round-trip.
- Ed25519, normalization form C, the encodings of peer ids and identities: foreign algorithms, kept as parameters.
- The change check of an object (signature, authorization, identity loading): one function of the change, because its outcome does not depend on the other changes.
- `CanonicalFormatter::write_raw_fragment`, which parses a fragment and writes it out canonically, and write errors of the underlying writer: parsing JSON text is not part of this model, and the latter are input and output.
- `FetchState`, the replication step machine, tracking, rejected identities and the `Shim`: they rest on the storage they are given.
- The in-memory reference store's scan stops at the first name that does not match; the model's scan yields all matching names, as other stores' scans do.
- `Identities::newer`, `ids::newest`, and the iteration order of identity histories: the history is given as a sequence.
- Parsing of URNs, the patterns and literals of git-ref-format, percent encoding: only easy members.
- Liveness of `Tasks` when its stream ends while nothing is ongoing: the end is not recorded in that state, so only safety is stated.
- The hooks, the SSH server, and what a git subprocess does: plumbing around `Processes`.
- Cob.Store.Create: requires that the object has no references yet, and that the identity commits a change names are no changes.
- Cob.Store.Update: requires that the identity commits a change names are no changes, and that nothing is cached for references that lead to no change.
- Replication.PlanEffect: requires that no peer's name begins with another's, as is the case for encodings of one length.
- RefNames.RefString.FromIter: requires a non-empty list, on which the original insists by aborting.
