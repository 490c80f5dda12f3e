# Verified model of Easy Access Review Engine

Easy Access Review Engine compares the access that was observed in identity providers with a versioned Golden Source,
resolves effective access through a graph of grants, runs review campaigns and turns their decisions into the next
Golden version. This project models that logic in Dafny and proves what the engine relies on. Each module follows one
part of the engine.

* **Grant graph.** `GrantGraph` defines walks, reachability and cycles. `EffectiveAccess` gives the depth-first search
  step by step, `EffectiveAccessEngine` the loops with their stack and dictionaries, `EffectiveAccessSearch` what the
  search keeps, and `EffectiveAccessTheorems` what the results mean. `EffectiveDiagnostics` says what is reported,
  `EffectivePaths` which assignments and walks the paths are of, and `EffectivePathOrder` in which order they are
  listed. `FunctionalContext` is the bounded breadth-first search over the same graph, `GoldenFreeze` the worklist that
  freezes what a Golden version needs.
* **Composition.** `Composition` is the union of snapshots with derived grants; `CompositionOrigins` and
  `CompositionTheorems` lead every row of the composition back to the snapshots it is made of.
* **Matching.** `GoldenVersions` has the keys of assignments, `StableTexts` their concatenated texts, `GoldenDiff` the
  difference of two versions, `Promotion` the loop that applies decisions and `PromotionResults` what is promoted in
  the end, `Comparison` and `ComparisonTheorems` the comparison with its round trip and its insensitivity to renames;
  `ComparisonExample` is a snapshot on which the round trip fails.
* **Imports.** `AccessReconciliation`, `AccessReconciliationLoop` and `IdentityReconciliation`, with their theorems,
  follow the repository ids through an import, and `AccessEnrichment` the fields of an access that is imported again;
  `UniqueIndex` is the stored table with a unique index, and `AccessWrites`, `IdentityWrites` and
  `IdentityWriteTheorems` check it after every single write.
* **Runs.** `PerimeterForest`, `PerimeterStore` and `PerimeterRepository` are the perimeter hierarchy;
  `CampaignDecisions`, `CampaignLifecycle`, `CampaignTheorems` and `CampaignStore` are the life of campaigns, as steps
  on stored rows and as methods of the store, for the web interface and the command line; `CampaignOpenings` says which
  rows are reviewed, and by whom; `CampaignRuns` holds the runs on which a property of campaigns fails.
* **Report.** `PdfText`, `PdfNumbers`, `PdfDocument` and `PdfBytes` print the final report as a PDF file; `PdfReader` is
  an independent reader of such files and `PdfRoundTrip` shows that it finds what was printed (sections 7.3 and 7.5 of
  ISO 32000-1); `PdfExample` is a report of which it does not.

`Domain`, `Ordering` and `Reviews` hold the shared records, the stable sort and the choice of the decision that counts.

Where the engine works by changing things step by step, a method with loops carries out the steps and is proved equal to
a specification function; the theorems are about that function, and say what it gives in terms of the fields of its
inputs. Iteration over Python sets and dictionaries is arbitrary
choice, so that nothing depends on its order. Clocks, uuids and digests are inputs: new rows get ids never used before,
and the digest of an origin is one text field.

## What turned out to depend on a condition

Each of these properties fails for some inputs. The condition is exact, and the input is one on which the property fails.

* The promotion loop gives base minus matched plus approved exactly when no later revoke discards what an earlier item
  approved (`Promotion.LoopMeetsIntention`), and all orders of the reviews agree exactly when none revokes what another
  one approves (`Promotion.OrdersAgreeExactly`). Input: two items that match the same previous assignment
  (`Promotion.SharedPreviousDependsOnOrder`).
* A version compared with itself is all unchanged exactly when its keys tell its assignments apart
  (`GoldenDiff.DiffWithItself`). Input: two assignments without native ids under one name
  (`GoldenDiff.SharedNameIsRemovedAndAdded`).
* A snapshot that is promoted and compared with itself agrees exactly when no composite-derived assignment is observed
  with the stable key of a direct one (`ComparisonTheorems.PromotionThenComparisonAgree`); for a single assignment see
  `ComparisonTheorems.PromotedIsMatchedUnlessShared`. Input: `ComparisonExample.SharedStableKeyIsMissed`.
* Every access of an import arrives exactly when no definition conflicts and no access takes a name before the access
  that has it is renamed in the same import (`AccessReconciliationTheorems.ImportsArriveExactly`). Inputs: a newcomer
  with a native id listed first makes the import fail (`AccessReconciliationTheorems.ReusedNameFails`), one without a
  native id is lost without an error (`AccessReconciliationTheorems.NativelessNewcomerIsLost`); in general
  `AccessReconciliationTheorems.EarlyReuseFails`.
* Writing merged accesses keeps the unique index once the obsolete rows are deleted; without the deletions, exactly when
  there are none (`AccessWrites.DeletesAreNeeded`).
* A stored identity in scope ends in exactly one merged row unless one import takes it by native id and another one by
  identifier, or it has no native id and its identifier arrives with one, or belongs to another stored identity too
  (`IdentityReconciliationTheorems.EndsOnceExactly`). Inputs: `IdentityReconciliationTheorems.NewNativeIdForgets` and
  `IdentityReconciliationTheorems.OldIdentifierTakesToo`.
* Writing merged identities keeps the unique index exactly when each identifier taken was released before
  (`IdentityWriteTheorems.TombstonesFirstKeepsIndex`). Input: `IdentityWriteTheorems.TakenBeforeReleaseFails`.
* Creation times have whole seconds, so the decision recorded last counts exactly when it wins its second by id
  (`CampaignDecisions.LastRecordedCounts`). Input: `CampaignDecisions.SameSecondIsDecidedById`.
* The command line decides without a look at the status of the campaign, closes without creating actions and opens
  without a fallback reviewer. All along a run, closed campaigns have exactly the demanded actions and items have
  reviewers if and only if no command-line close leaves an action demanded, every command-line decision on a closed
  campaign is outranked by a stored one or asks for what is demanded already, and no command-line opening misses a
  reviewer (`CampaignTheorems.ProperRunsStayInOrder`);
  a closed campaign is frozen exactly when the command line records no decision on it
  (`CampaignTheorems.ClosedCampaignsAreFrozen`). Inputs: `CampaignRuns.CommandLineCloseOrdersNothing`,
  `CampaignRuns.CommandLineDecisionThaws` and `CampaignRuns.CommandLineOpensWithoutReviewer`.
* Deleting a campaign whose items have remediation actions leaves them without their items, because actions are looked
  up by a campaign that they do not record (`CampaignTheorems.DeletingOrphansActions`). Input:
  `CampaignRuns.DeletionLeavesOrphan`.
* Another stable key has the same concatenated texts exactly when the access has a native id with a colon behind its
  first character, or with a permission that contains a colon (`StableTexts.TextIsSharedExactly`). Input:
  `StableTexts.AccessTextCollides`. Between keys whose permissions have no colon the texts always agree as the keys do
  (`StableTexts.StableTextIsFaithful`).
* The cross-reference table is well formed exactly up to ten-digit offsets (`PdfRoundTrip.ReportReadsBack`). Input: any
  report of `PdfExample.MANY_LINES` lines (`PdfExample.LongReportIsNotFound`). Text
  survives exactly without carriage returns and characters outside Latin-1 (`PdfRoundTrip.ReportIsFaithful`). Input: the
  line of dates with an em dash for a date that is not set (`PdfExample.DashesAreNotFound`).

## Model

| member | source | states |
|---|---|---|
| `EffectiveAccessEngine.CalculateEffectiveAccesses` | src/access_review_engine/services.py:62-187 | refused exactly for a limit below one; otherwise the stack loop over sorted inputs gives the specified results, with their paths in order, and the specified diagnostics; what both are in terms of the inputs is in `EffectivePaths`, `EffectivePathOrder` and `EffectiveDiagnostics` |
| `EffectiveAccessEngine.BuildAdjacency` | src/access_review_engine/services.py:81-98 | the adjacency lists the admitted grants of each access in order, and every relation left out has its diagnostic |
| `EffectiveAccessEngine.ExpandFrame` | src/access_review_engine/services.py:137-182 | one pop of the stack of (access, chain, relation ids) is one expansion of the search: cycle, path limit or recorded child |
| `EffectiveAccessEngine.DrainStack` | src/access_review_engine/services.py:137-182 | the stack loop, with its chains and relation ids, ends with what expanding all pending walks gives |
| `EffectiveAccessEngine.ExploreAssignment` | src/access_review_engine/services.py:112-182 | one assignment: the direct access is recorded and the search from it carried out |
| `EffectiveAccess.ExpandShrinks` | src/access_review_engine/services.py:137-182 | a weight of the stack strictly decreases at each pop, on cyclic graphs too: the search ends |
| `EffectiveAccessTheorems.EffectiveMeansReachable` | src/access_review_engine/services.py:100-182 | an identity holds an access if and only if an admitted assignment of it reaches the access over admissible grants, whatever the path limit; `direct` if and only if an admitted assignment names it |
| `EffectiveAccessTheorems.LimitNeverDropsAnAccess` | src/access_review_engine/services.py:137-182 | two path limits give the same accesses with the same direct marks: the limit drops only provenance |
| `EffectiveAccessTheorems.PathsAreTheSimpleWalks` | src/access_review_engine/services.py:137-182 | recorded paths are simple walks of the identity, without repetition, at most the limit of derived ones per access; all of them when no limit was reported |
| `EffectiveAccessTheorems.CyclesAreReported` | src/access_review_engine/services.py:143-157 | a reported cycle is reachable from a root of the identity; without a limit report every identity with a reachable cycle is reported |
| `EffectiveAccessTheorems.RelationsAreAccountedFor` | src/access_review_engine/services.py:81-98 | every relation is unsupported, unresolved with the right missing ends, or represented in the graph by one with its key |
| `EffectiveDiagnostics.UnknownAssignmentsAreReported` | src/access_review_engine/services.py:112-124 | for every limit, an unresolved assignment is reported if and only if an input assignment has that id, identity and access and the access is not catalogued, and as often as it is listed |
| `EffectiveDiagnostics.RelationsAreReported` | src/access_review_engine/services.py:81-98 | a relation is reported as unsupported if and only if it is listed with another kind than `grants`, and as unresolved if and only if it is the first grant listed among those with its ends and origin and lacks exactly the ends named; the number of reports of each too |
| `EffectiveDiagnostics.SearchedRelations` | src/access_review_engine/services.py:81-98 | the relations searched are the grants with catalogued ends, of those with the same ends and origin the one listed first, each once |
| `EffectivePaths.HeldMeansGranted` | src/access_review_engine/services.py:62-182 | an identity holds an access if and only if an assignment of it to a catalogued access leads there over grants with catalogued ends; `direct` if and only if such an assignment names it |
| `EffectivePaths.PathsTellWalks` | src/access_review_engine/services.py:126-182 | every path names an assignment of the identity and the relations and accesses of a simple walk from it, and every such walk has its path unless a limit was reported |
| `EffectivePaths.FirstPathIsOfFirst` | src/access_review_engine/services.py:101-136 | the first path of a result is one of an assignment that no other one leading there precedes by provider, name, fingerprint and id |
| `EffectivePathOrder.PathsAreListedInOrder` | src/access_review_engine/services.py:101-182 | paths are listed by assignment in that order, and within one search as the depth-first search meets them: the grants of one access together, last one first, before anything behind them, and what lies behind a grant sorted first before what lies behind a later one |
| `EffectiveAccessSearch.DrainIsSound` | src/access_review_engine/services.py:137-182 | the search keeps: every holding and diagnostic is explained by walks from admitted roots, within the limit |
| `EffectiveAccessSearch.DrainReachesAll` | src/access_review_engine/services.py:137-182 | when the stack is empty the results are closed under the grants and every simple walk was recorded, cut by the limit, or reported as a cycle |
| `GrantGraph.CycleMeansClosableWalk` | src/access_review_engine/services.py:143-157 | a cycle is reachable exactly when a simple walk can be closed by one more relation, which is what the search detects |
| `GrantGraph.SimpleWalkIsShort` | src/access_review_engine/services.py:137-182 | a chain without repetition is no longer than the number of relations |
| `FunctionalContext.Resolve` | src/access_review_engine/functional_context.py:70-146 | the breadth-first search visits exactly the accesses within the depth, each once, nearest first and in the order in which their parents list them, with a shortest path; its grants are the catalogued visits but the root, in that order and with that path, and its rights all of theirs, each with the provenance of the first visit that has it |
| `FunctionalContext.QueueChildren` | src/access_review_engine/functional_context.py:142-146 | queueing unseen children keeps the queue in breadth-first order, without repetition, with shortest paths |
| `FunctionalContext.ReportVisit` | src/access_review_engine/functional_context.py:83-141 | one visit adds the grant of the visited access and those of its rights that no earlier visit, and no earlier position of its model, has; what is there keeps its provenance |
| `FunctionalContext.RightsAreFirst` | src/access_review_engine/functional_context.py:115-141 | a right is reported if and only if a visited access has it, with the access and the position at which it was first met |
| `FunctionalContext.RightsComeFromNearest` | src/access_review_engine/functional_context.py:115-146 | the reported provenance of a right is an access nearest to the root among those that have it |
| `FunctionalContext.SearchIsComplete` | src/access_review_engine/functional_context.py:83-146 | with an empty queue the visited accesses are those within the depth |
| `FunctionalContext.WalkIsWithin` | src/access_review_engine/functional_context.py:142-146 | a walk of n grants leads to an access at distance at most n |
| `FunctionalContext.BothSearchesAgree` | src/access_review_engine/golden_functional.py:184-213 | when everything reachable is catalogued and within the depth, the bounded search and the depth-first search behind effective rights reach the same accesses and rights |
| `GoldenFreeze.SelectAccesses` | src/access_review_engine/services.py:923-933 | the worklist computes the least set that contains the assigned accesses and is closed under the relations |
| `GoldenFreeze.PromoteSnapshot` | src/access_review_engine/services.py:879-962 | a version is made exactly when the collection is complete, no provider of the latest version is dropped and no two assignments have one stable key; field by field, its contents are the assignments, the definitions and relations of the least closed set of accesses and, behind these, what is inherited of an earlier version |
| `GoldenFreeze.RestrictionPreservesEffectiveAccess` | src/access_review_engine/services.py:81-98 | restricting relations and catalogue to a closed set containing the assigned accesses changes no effective access, no path and no order |
| `GoldenFreeze.FreezingPreservesEffectiveAccess` | src/access_review_engine/services.py:923-941 | a first promoted version gives every identity the same effective accesses and paths, in order, as the whole snapshot |
| `GoldenVersions.RejectDuplicateStableKeys` | src/access_review_engine/services.py:977-985 | accepted exactly when no two positions carry the same stable key |
| `GoldenVersions.SameStableKeyMeansSame` | src/access_review_engine/domain.py:572-585 | two assignments share a stable key if and only if a native id is known and they agree in providers and permission and, on either side, in the native id or, where there is none, in the name |
| `StableTexts.StableTextIsFaithful` | src/access_review_engine/domain.py:572-585 | the concatenated texts of two keys agree exactly when the keys do, where both permissions, or both access native ids, have no colon |
| `StableTexts.TextIsSharedExactly` | src/access_review_engine/domain.py:572-585 | another stable key has the same texts if and only if the access native id has a colon behind its first character or its permission has one |
| `StableTexts.TextsDifferWhereKeysDo` | src/access_review_engine/services.py:977-985 | for assignments whose permissions have no colon, repeated texts are exactly repeated keys |
| `StableTexts.AccessTextCollides` | src/access_review_engine/domain.py:575-579 | the native id `a` with permission `b:c` and the native id `a:b` with permission `c` have one text |
| `GoldenDiff.Diff` | src/access_review_engine/services.py:988-1014 | rows are the pairs of the two passes as unchanged, then the unpaired old ones as removed and new ones as added, each once |
| `GoldenDiff.PairsMean` | src/access_review_engine/services.py:988-1061 | two assignments are paired if and only if they have the same stable key, which nobody else on either side has, or else the same names, which nobody else among the rest has, and one of them has no native ids |
| `GoldenDiff.UniqueByKey` | src/access_review_engine/services.py:1047-1061 | exactly the items whose key nobody else has |
| `GoldenDiff.MatchPass` | src/access_review_engine/services.py:1017-1044 | exactly the pairs with a key unique on both sides, by name only when one side has no stable key |
| `GoldenDiff.Discard` | src/access_review_engine/services.py:993-1001 | both remaining sets lose exactly the paired items |
| `GoldenDiff.PairingIsOneToOne` | src/access_review_engine/services.py:993-1001 | no assignment is in two pairs |
| `GoldenDiff.DiffConserves` | src/access_review_engine/services.py:988-1004 | unchanged and removed count the old version, unchanged and added the new one |
| `GoldenDiff.DiffSwaps` | src/access_review_engine/services.py:988-1004 | exchanging the versions turns every pair round and exchanges added with removed exactly |
| `GoldenDiff.DiffWithItself` | src/access_review_engine/services.py:988-1004 | a version against itself is all unchanged if and only if its keys tell its assignments apart |
| `GoldenDiff.SharedNameIsRemovedAndAdded` | src/access_review_engine/services.py:988-1004 | two assignments without native ids under one name: against itself the version has both removed and both added |
| `Reviews.LatestDecisionIsLatest` | src/access_review_engine/services.py:1180-1184 | an item has a latest decision exactly when it was decided, and none on it is later |
| `Promotion.LoopMembership` | src/access_review_engine/services.py:1230-1252 | what the add/discard loop contains: approved last, or in the start and never revoked |
| `Promotion.LoopMeetsIntention` | src/access_review_engine/services.py:1230-1252 | the loop gives base minus matched plus approved if and only if no approval is discarded by a later revoke without being approved again |
| `Promotion.OrdersAgreeExactly` | src/access_review_engine/services.py:1230-1252 | all orders of the reviews leave the same assignments if and only if no review revokes what another one approves |
| `Promotion.MergedIsNobodysPrevious` | src/access_review_engine/services.py:1308-1337 | under unique stable keys, distinct names and distinct matches, what one item approves is never what another one revokes |
| `Promotion.PromotionIsOrderIndependent` | src/access_review_engine/services.py:1213-1252 | under unique stable keys, distinct names and distinct matches the loop result is exactly base minus matched plus the merged approved assignments, in every order of the items |
| `Promotion.CampaignPromotesItsApprovals` | src/access_review_engine/services.py:1201-1252 | the same for review items, decisions and an observed snapshot in `replace_scope` mode |
| `Promotion.CampaignOrderDoesNotMatter` | src/access_review_engine/services.py:1230-1252 | two orders of the same review items promote the same assignments |
| `Promotion.SharedPreviousDependsOnOrder` | src/access_review_engine/services.py:1230-1252 | two items that match the same previous assignment: approve-then-revoke loses the approval, revoke-then-approve keeps it |
| `Promotion.PromoteCampaign` | src/access_review_engine/services.py:1201-1277 | a version is made exactly when every item is decided, the mode is known and the promoted stable keys differ; its assignments are the promoted ones and every other field is that of the previous version |
| `PromotionResults.PromotedExactly` | src/access_review_engine/services.py:1201-1252 | under unique stable keys, distinct names and distinct matches, in both modes: promoted is what an approved item says of its own access, identity, native ids and permission, completed from the assignment it matches, and in `replace_scope` mode every previous assignment that no item matches |
| `PromotionResults.ApprovedAsFrozen` | src/access_review_engine/services.py:1280-1305 | an approved item without a match is promoted as the golden assignment that freezing the same snapshot makes of the observation |
| `Comparison.CompareSnapshot` | src/access_review_engine/services.py:459-622 | one row per expected assignment: observed if and only if a native id or a name leads to an observation, and otherwise missing exactly where the scope was collected completely; then one row per observed name that nothing accounts for, unexpected if there is a Golden version and without reference if there is none; composite-derived assignments are observed too |
| `Comparison.AddDerived` | src/access_review_engine/services.py:471-508 | exactly the non-direct effective accesses that are not observed under their name and whose first path uses a composite relation |
| `ComparisonTheorems.CompositeAccessesAreObserved` | src/access_review_engine/services.py:471-508 | derived are exactly the effective accesses of the snapshot that no assignment names and whose first path uses a relation with a composite origin |
| `Comparison.IndexObserved` | src/access_review_engine/services.py:509-544 | names, aliases, names without stable key, and the index in which a stable key met twice leads nowhere |
| `Comparison.MatchExpected` | src/access_review_engine/services.py:556-594 | the rows of the expected assignments and the set of observed names they are matched with |
| `Comparison.LeftOver` | src/access_review_engine/services.py:596-620 | the observed names not matched whose last assignment has no expected stable key |
| `Comparison.StableIndexMeaning` | src/access_review_engine/services.py:515-544 | a stable key leads to a name exactly when one observed assignment has it |
| `ComparisonTheorems.PromotedIsMatchedUnlessShared` | src/access_review_engine/services.py:556-574 | a promoted assignment is matched with its own name if and only if no derived assignment shares its stable key or its name is also observed without one |
| `ComparisonExample.SharedStableKeyIsMissed` | src/access_review_engine/services.py:515-594 | a snapshot in which a derived access has the native id of an assigned one: promoted and compared with itself, that assignment is reported missing |
| `ComparisonTheorems.PromotionThenComparisonAgree` | src/access_review_engine/services.py:459-631 | promoting a snapshot and comparing it again, on the returned rows: every golden assignment is expected and observed under its own name, none is missing, and further rows are exactly the derived ones, as unexpected, if and only if no derived assignment shares the stable key of a direct one |
| `ComparisonTheorems.RenamesDoNotShow` | src/access_review_engine/services.py:509-620 | renaming accesses and identities leaves the multiset of (expected, observed, classification) unchanged when both native ids are known everywhere |
| `AccessReconciliation.ReconcileAccesses` | src/access_review_engine/application.py:632-688 | the loop over slots with its two indexes computes the specified list or error |
| `AccessReconciliation.IndexExisting` | src/access_review_engine/application.py:633-645 | refused exactly when a stored name occurs twice; otherwise both indexes, later entries winning |
| `AccessReconciliation.ReconcileOne` | src/access_review_engine/application.py:649-687 | one import takes the slot of its previous access, which then bears its name and keeps its id unless another native id replaces it, or a new slot; both indexes lead to that slot; it fails exactly when the previous access has left the list or is defined differently |
| `AccessReconciliationTheorems.ReconciliationIsExpected` | src/access_review_engine/application.py:632-688 | the loop with its two indexes computes the list described slot by slot, or fails with the fault of the first import that is refused |
| `AccessReconciliationTheorems.ConflictIsRefused` | src/access_review_engine/application.py:655-657 | when reused names come after their renames, a conflicting definition refuses the whole import, and nothing else can fail |
| `AccessReconciliationTheorems.EarlyReuseFails` | src/access_review_engine/application.py:648-687 | the first name taken too early: a newcomer with a native id makes the rename fail, one without is lost under the renamed access |
| `AccessReconciliationTheorems.ReconciliationIsConsistent` | src/access_review_engine/application.py:632-688 | an accepted import leaves unique names and ids, and stored accesses that no import takes stay |
| `AccessReconciliationTheorems.ImportsArriveExactly` | src/access_review_engine/application.py:632-688 | under the rename check every imported name arrives if and only if no definition conflicts and names that an access gives up are taken only after it was renamed |
| `AccessReconciliationTheorems.RejectRenameCollisions` | src/access_review_engine/application.py:749-772 | accepted exactly when no import moves a native id onto the name of an access with another one |
| `AccessReconciliationTheorems.RenameKeepsId` | src/access_review_engine/application.py:668-671 | in every accepted import an unchanged native id keeps its repository id under any new name |
| `AccessEnrichment.ImportedAgain` | src/access_review_engine/application.py:583-687 | a stored access that one import concerns: refused if both define the target or the permission and differ; otherwise it becomes the import itself when their native ids differ, the import under the stored id when the name is new, and else, field by field, the stored access completed by the import |
| `AccessEnrichment.UnconcernedStays` | src/access_review_engine/application.py:646-688 | a stored access with neither name nor native id in common with an import stays in place as it is |
| `AccessEnrichment.NewcomerIsAppended` | src/access_review_engine/application.py:646-688 | an import with neither name nor native id in common with a stored access is appended as it is |
| `AccessReconciliationTheorems.ReusedNameFails` | src/access_review_engine/application.py:648-687 | an access renamed away and a newcomer with another native id under its old name: fails when the newcomer is listed first, both arrive when it is listed second |
| `AccessReconciliationTheorems.NativelessNewcomerIsLost` | src/access_review_engine/application.py:648-687 | the same with a newcomer without native id: listed first, its name is missing from the result, without an error |
| `AccessWrites.DeletesFirstKeepIndex` | src/access_review_engine/application.py:162-172 | obsolete rows deleted first, the unique index on accesses holds after every single write of an accepted import |
| `AccessWrites.DeletesAreNeeded` | src/access_review_engine/application.py:167-172 | without the deletions it holds if and only if no row is obsolete |
| `AccessWrites.WriteAccesses` | src/access_review_engine/application.py:162-172 | reconciling, deleting and writing succeed exactly when the reconciliation does; the table then has exactly the merged rows of the provider |
| `IdentityReconciliation.ReconcileIdentities` | src/access_review_engine/services.py:401-444 | imports take over the stored ids; in an authoritative import the lost ones in scope are appended as tombstones |
| `IdentityReconciliation.AddTombstones` | src/access_review_engine/services.py:434-443 | one tombstone for each stored identity in scope that no import took |
| `IdentityReconciliationTheorems.MergedRowByRow` | src/access_review_engine/services.py:401-456 | the merged list row by row: each import with no field but its id changed, then, if the import is authoritative, one deleted row for each stored identity in the claimed scope that no import took, in stored order |
| `IdentityReconciliationTheorems.MergedIdsDiffer` | src/access_review_engine/services.py:401-444 | no id occurs twice in the merged list |
| `IdentityReconciliationTheorems.EveryIdentityEndsOnce` | src/access_review_engine/services.py:418-444 | with native ids everywhere, every stored identity in the claimed scope (everything, some providers or some kinds) ends once: as the import that took its id or as one tombstone |
| `IdentityReconciliationTheorems.EndsOnceExactly` | src/access_review_engine/services.py:401-444 | with or without native ids, a stored identity in scope ends once if and only if it is neither taken by native id and by identifier, nor without native id while its identifier arrives with one or belongs to another stored identity too |
| `IdentityReconciliationTheorems.NewNativeIdForgets` | src/access_review_engine/services.py:418-444 | a stored identity without native id, imported under its identifier with one: it gets neither its id nor a tombstone |
| `IdentityReconciliationTheorems.OldIdentifierTakesToo` | src/access_review_engine/services.py:418-444 | an identity renamed by native id whose old identifier is imported without one: both imports get its id |
| `IdentityWrites.OrderOfWrites` | src/access_review_engine/application.py:158-159 | sorting by status writes deleted imports, then tombstones, then live rows, each in order |
| `IdentityWrites.RowsCollide` | src/access_review_engine/storage.py:464-471 | two identities have one row name if and only if they have the same name, are both deleted or both not, and share the tag of deletion in the first case |
| `IdentityWriteTheorems.TombstonesFirstKeepsIndex` | src/access_review_engine/application.py:151-159 | the unique index holds after every single write if and only if each identifier taken was released before |
| `IdentityWriteTheorems.ImportsWithoutReuseAreWritten` | src/access_review_engine/application.py:151-159 | it holds when no import takes the identifier of an identity renamed in the same batch |
| `IdentityWriteTheorems.TakenBeforeReleaseFails` | src/access_review_engine/application.py:151-159 | an identity renamed and a new one under its identifier: the index fails when the new one is listed first and holds when it is listed second |
| `IdentityWriteTheorems.ForgottenBlocksItsImport` | src/access_review_engine/application.py:151-159 | the forgotten identity still has its identifier, so writing the import breaks the unique index |
| `UniqueIndex.UniqueMeansNoClash` | src/access_review_engine/storage.py:234-248 | every intermediate table respects the index exactly when no write takes a name still held by another row |
| `UniqueIndex.UpsertAll` | src/access_review_engine/storage.py:234-248 | the writes succeed exactly when every intermediate table respects the index |
| `Composition.Compose` | src/access_review_engine/snapshot_composition.py:27-142 | refused exactly when no snapshot has a requested provider; otherwise union, back-fill, resolution and derived grants; what arrives of the snapshots is in `CompositionTheorems` |
| `Composition.BackfillIdentities` | src/access_review_engine/snapshot_composition.py:73-88 | adds the first known identity record for each assignment that lacks one, and nothing else |
| `Composition.ResolveAssignments` | src/access_review_engine/snapshot_composition.py:89-99 | files every assignment under the key of its resolved form, a later one winning |
| `Composition.IndexGroups` | src/access_review_engine/snapshot_composition.py:102-106 | the membership access of each group, by provider and folded source group |
| `Composition.DeriveGrants` | src/access_review_engine/snapshot_composition.py:107-142 | adds a grant for each cross-provider assignment to an indexed group, and nothing else |
| `Composition.PrincipalIsResolved` | src/access_review_engine/snapshot_composition.py:159-207 | an unresolved group principal with one candidate is filed as that group's assignment |
| `Composition.CloudGrantIsDerived` | src/access_review_engine/snapshot_composition.py:107-142 | the composition contains the grant from the membership access to what the group was assigned |
| `Composition.MembersHoldCloudAccesses` | src/access_review_engine/snapshot_composition.py:100-142 | every identity that directly holds the membership access is an effective holder of each catalogued cloud access of the group |
| `Composition.PrincipalReachesItsMembers` | src/access_review_engine/snapshot_composition.py:89-142 | the same from an unresolved principal of the union of the snapshots |
| `Composition.DerivedGrantsHaveACause` | src/access_review_engine/snapshot_composition.py:107-142 | every relation that was not imported is caused by a cross-provider assignment to the group of its parent |
| `CompositionTheorems.ProvidersArrive` | src/access_review_engine/snapshot_composition.py:30-42 | the composed providers are the requested ones that a snapshot has, each with the row of the last selected snapshot that has it |
| `CompositionTheorems.AccessesArrive` | src/access_review_engine/snapshot_composition.py:49-54 | an access is composed if and only if its provider is requested and present and it is the last row under its name among the selected snapshots |
| `CompositionTheorems.RelationsArrive` | src/access_review_engine/snapshot_composition.py:67-72 | the same for imported relations, with both ends of requested and present providers |
| `CompositionTheorems.IdentitiesArrive` | src/access_review_engine/snapshot_composition.py:43-88 | identities of requested and present providers are the last rows under their names; others are there only for an assignment that refers to them, as the first row offered |
| `CompositionTheorems.AssignmentArrives` | src/access_review_engine/snapshot_composition.py:55-99 | every assignment of a selected snapshot whose provider is requested and present arrives with its access, and with its own identity or the single candidate of its principal |
| `CompositionTheorems.AssignmentHasOrigin` | src/access_review_engine/snapshot_composition.py:55-99 | every composed assignment comes from one of a selected snapshot in that way, and no other has its access, identity and fingerprint |
| `CompositionTheorems.DerivedComeFromGroups` | src/access_review_engine/snapshot_composition.py:102-142 | every relation that was not imported is a grant from the membership access of a group to an access of another provider that the group is assigned |
| `CompositionTheorems.CloudAccessReachesMembers` | src/access_review_engine/snapshot_composition.py:27-142 | from the input snapshots: who holds the membership access of a group in one snapshot effectively holds what the principal standing for that group is assigned in another one |
| `PerimeterForest.WritingKeepsForest` | src/access_review_engine/perimeters.py:35-49 | writing a perimeter keeps the forest if and only if its parent is accepted |
| `PerimeterForest.DeletingKeepsForest` | src/access_review_engine/perimeters.py:91-104 | deleting a perimeter keeps the forest if and only if it has no children |
| `PerimeterForest.PathNamesAncestors` | src/access_review_engine/perimeters.py:120-131 | a path holds exactly the perimeter and its ancestors |
| `PerimeterForest.DescendantsAreOnPaths` | src/access_review_engine/perimeters.py:107-131 | y is below x if and only if x is on the path of y and differs from y |
| `PerimeterStore.NextKeepsValid` | src/access_review_engine/perimeters.py:35-104 | every operation keeps both kinds forests, every reference live and every link single |
| `PerimeterStore.ReachableStatesAreValid` | src/access_review_engine/perimeters.py:35-207 | so does every run from the empty store |
| `PerimeterStore.DeletingReferencedBreaks` | src/access_review_engine/perimeters.py:91-104 | deleting a perimeter that the guards protect would break the invariant |
| `PerimeterRepository.AssertParent` | src/access_review_engine/perimeters.py:35-49 | in a forest: accepted exactly when the parent exists and is neither the perimeter nor below it |
| `PerimeterRepository.DescendantsOf` | src/access_review_engine/perimeters.py:107-117 | without a visited set: in a forest it ends and lists each strict descendant once |
| `PerimeterRepository.PathOf` | src/access_review_engine/perimeters.py:120-131 | the path from the root; in a forest always found |
| `PerimeterRepository.ExpandSelection` | src/access_review_engine/web_use_cases.py:145-153 | the selected perimeters and exactly what is below them |
| `PerimeterRepository.Repository.CreatePerimeter` | src/access_review_engine/perimeters.py:52-70 | the new state and the refusals of creation |
| `PerimeterRepository.Repository.UpdatePerimeter` | src/access_review_engine/perimeters.py:73-88 | the new state and the refusals of a change, re-parenting included |
| `PerimeterRepository.Repository.DeletePerimeter` | src/access_review_engine/perimeters.py:91-104 | the new state; refused for children, associations or assignments |
| `PerimeterRepository.Repository.AssociatePerimeters` | src/access_review_engine/perimeters.py:138-146 | both sides must exist; an existing association is not repeated |
| `PerimeterRepository.Repository.UnassociatePerimeters` | src/access_review_engine/perimeters.py:149-154 | removes the association if there is one |
| `PerimeterRepository.Repository.AssignToPerimeter` | src/access_review_engine/perimeters.py:194-207 | the scope must exist and the object must be named; an existing assignment is not repeated |
| `CampaignDecisions.LatestIsCounting` | src/access_review_engine/services.py:1180-1184 | the decision that counts for an item depends on the decisions on that item alone |
| `CampaignDecisions.CountingMeansDecided` | src/access_review_engine/services.py:1180-1184 | a decision counts for an item if and only if there is one on it; none on it is later, and none in the same second has a greater id |
| `CampaignDecisions.RecordedCounts` | src/access_review_engine/storage.py:262-271 | one more decision on an item is the one that counts unless a stored one on it has a later second, or the same second and a greater id; then the same one counts as before |
| `CampaignDecisions.LastRecordedCounts` | src/access_review_engine/storage.py:262-271 | the decision recorded last counts if and only if no decision on the item recorded in the same second has a greater id |
| `CampaignDecisions.SameSecondIsDecidedById` | src/access_review_engine/storage.py:262-271 | two decisions in one second: the one recorded last does not count when its id is smaller |
| `CampaignStore.OpenItems` | src/access_review_engine/services.py:1074-1121 | one item per reviewable row, in order; refused exactly when a reviewer is missing and that is not allowed |
| `CampaignStore.ReviewableAre` | src/access_review_engine/services.py:1124-1147 | exactly the rows whose access is neither a composite parent nor a group linked to a client role |
| `CampaignStore.RemediationFromDecisions` | src/access_review_engine/services.py:1340-1355 | exactly one action per item whose decision is revoke, and it revokes, and per item whose decision is approve and that was expected and not observed, and it grants; no other action |
| `CampaignStore.Store.CreateCampaign` | src/access_review_engine/api.py:4516-4541 | a new campaign is stored as a draft |
| `CampaignStore.Store.OpenCampaign` | src/access_review_engine/api.py:4580-4654 | only a draft; stores the campaign as open and its items |
| `CampaignStore.Store.OpenFromCommandLine` | src/access_review_engine/cli/main.py:712-722 | only a draft; the items of the stored snapshot, without a fallback reviewer |
| `CampaignStore.Store.RecordDecision` | src/access_review_engine/api.py:5912-5946 | if and only if the item is one of an open campaign and there is a comment for anything but approve; appended |
| `CampaignStore.Store.DecideFromCommandLine` | src/access_review_engine/cli/main.py:725-738 | appended whatever the status of the campaign, if and only if the item is one of a stored campaign and there is a comment for anything but approve |
| `CampaignStore.Store.ReassignReviews` | src/access_review_engine/api.py:1446-1495 | moves exactly the undecided items of open campaigns of that reviewer |
| `CampaignStore.Store.CloseCampaign` | src/access_review_engine/api.py:4656-4694 | if and only if it is open and every item is decided; afterwards an item has exactly one action that revokes if and only if the decision that counts is revoke, exactly one that grants if and only if it is approve and the item is expected and not observed, and otherwise none |
| `CampaignStore.Store.CloseFromCommandLine` | src/access_review_engine/cli/main.py:739-743 | closes every campaign without an undecided item, whatever its status, and creates no action |
| `CampaignStore.Store.CancelCampaign` | src/access_review_engine/api.py:4696-4710 | only a draft |
| `CampaignStore.Store.DeleteCampaign` | src/access_review_engine/api.py:4712-4762 | removes the campaign, its items and exactly the decisions on them, and no action |
| `CampaignStore.Store.SetRemediationStatus` | src/access_review_engine/api.py:3464-3510 | only status and comment of an existing action; not completed needs a comment |
| `CampaignLifecycle.NewItemsAre` | src/access_review_engine/services.py:1085-1116 | the opened items are those of the reviewable rows under their fresh ids |
| `CampaignOpenings.RowsAreReviewed` | src/access_review_engine/services.py:1124-1147 | the reviewed rows are the rows in order without those whose access is the parent of a composite relation or a group linked to a client role |
| `CampaignOpenings.ReviewerIsFirstNamed` | src/access_review_engine/services.py:1150-1165 | the reviewer is the first one named of the access owner, the account owner, the appointed reviewer, the default reviewer, the manager of the campaign and, where unresolved owners are allowed, the pilot |
| `CampaignOpenings.OpeningRecordsRows` | src/access_review_engine/services.py:1074-1121 | opening stores one item per reviewed row with its fields and that reviewer, if and only if the campaign is a draft and reviewers are named or not needed; otherwise nothing changes |
| `CampaignOpenings.CommandLineOpeningRecordsRows` | src/access_review_engine/cli/main.py:712-722 | the same from the command line, where nobody is appointed and the pilot never stands in |
| `CampaignOpenings.ReassigningMoves` | src/access_review_engine/api.py:1446-1495 | reassigning, item by item: exactly the undecided items of open campaigns with that reviewer, compared in lower case, get the new one, under the provider of the old one or else of the identity |
| `CampaignOpenings.ReasonsAreGiven` | src/access_review_engine/services.py:1168-1177 | no run stores a revoke or not-applicable, or marks an action as not completed, without a comment |
| `CampaignTheorems.NextKeepsValid` | src/access_review_engine/api.py:4580-4710 | every step of the web interface and the command line keeps: items belong to open campaigns without actions or to closed ones that are decided, decisions are on stored items |
| `CampaignTheorems.ServedExactly` | src/access_review_engine/api.py:4656-4694 | from a state in which closed campaigns have exactly the demanded actions, a step keeps that if and only if it is no command-line close that leaves an action demanded, and no command-line decision on a closed campaign that no stored one outranks and that asks for something else than is demanded |
| `CampaignTheorems.ReviewersExactly` | src/access_review_engine/services.py:1085-1094 | from a state in which every item has a reviewer, a step keeps that if and only if it is no command-line opening with a row that nobody owns |
| `CampaignTheorems.ProperRunsStayInOrder` | src/access_review_engine/cli/main.py:709-743 | both hold all along a run if and only if all its steps are of that kind |
| `CampaignTheorems.ClosedCampaignsAreComplete` | src/access_review_engine/api.py:4656-4694 | after any run each item of a closed campaign is decided; its items have exactly the actions that their decisions ask for, by value and by what was expected and observed, if and only if a closing through the web interface ordered what is demanded now, and always after a run of such steps |
| `CampaignTheorems.ItemsComeWithOpening` | src/access_review_engine/api.py:4611-4644 | after any run only open and closed campaigns have items, and open ones no action; after a run of such steps each item has a reviewer |
| `CampaignTheorems.ClosedCampaignsAreFrozen` | src/access_review_engine/api.py:4580-4776 | until it is deleted a closed campaign changes by nothing but the decisions that the command line records on it: its record, items, decisions and actions (up to their progress) stay if and only if there are none |
| `CampaignTheorems.DecisionsAreAppendOnly` | src/access_review_engine/api.py:1475-1485 | no run takes a decision back or changes the reviewer of a decided item |
| `CampaignTheorems.ClosedCampaignCanBePromoted` | src/access_review_engine/services.py:1210-1212 | promoting a closed campaign is never refused for pending decisions |
| `CampaignTheorems.DeletingOrphansActions` | src/access_review_engine/api.py:4734-4738 | deleting leaves actions without their item if and only if items of the campaign have actions; where closed campaigns have the demanded actions, if and only if it was closed and its decisions demanded some |
| `CampaignRuns.CommandLineCloseOrdersNothing` | src/access_review_engine/cli/main.py:739-743 | create, open, revoke, close from the command line: the campaign is closed and the demanded action does not exist |
| `CampaignRuns.CommandLineDecisionThaws` | src/access_review_engine/cli/main.py:731-738 | create, open, revoke, close, approve from the command line: nothing is demanded any more and the revocation is still ordered |
| `CampaignRuns.CommandLineOpensWithoutReviewer` | src/access_review_engine/cli/main.py:712-722 | create, open from the command line: an item without a reviewer |
| `CampaignRuns.DeletionLeavesOrphan` | src/access_review_engine/api.py:4713-4762 | create, open, revoke, close, delete: the action remains and its item is gone |
| `PdfDocument.PdfDocument` | src/access_review_engine/reporting.py:202-263 | wrapping, paging, objects and file together give the specified bytes |
| `PdfText.WrapLines` | src/access_review_engine/reporting.py:204-213 | every line is cut into pieces of 112 characters and a rest |
| `PdfText.SplitPages` | src/access_review_engine/reporting.py:214-215 | consecutive pages of 58 lines; one empty page for no lines |
| `PdfText.GuardsEscape` | src/access_review_engine/reporting.py:230-231 | the three replacements in their order put a reverse solidus before each special character once |
| `PdfText.SafeReadsBack` | src/access_review_engine/reporting.py:230-232 | a shown line is read back as its Latin-1 form with unified line ends; unchanged if and only if it is Latin-1 without carriage return |
| `PdfDocument.BuildObjects` | src/access_review_engine/reporting.py:216-250 | catalog, page tree, each page followed by its content, font last, each referring to the right numbers |
| `PdfDocument.WriteFile` | src/access_review_engine/reporting.py:251-263 | header, numbered objects, cross-reference table with recorded offsets, trailer |
| `PdfRoundTrip.EntryIsOffset` | src/access_review_engine/reporting.py:252-259 | entry n of the cross-reference table is the byte at which object n starts |
| `PdfRoundTrip.EntriesHaveTwentyBytes` | src/access_review_engine/reporting.py:258-259 | every entry has twenty bytes if and only if the last object starts below byte 10^10 |
| `PdfRoundTrip.ObjectIsFound` | src/access_review_engine/reporting.py:253-259 | the table leads to `n 0 obj` and the whole object |
| `PdfRoundTrip.StartIsFound` | src/access_review_engine/reporting.py:256-262 | `startxref` gives the byte of `xref` |
| `PdfRoundTrip.ContentIsFound` | src/access_review_engine/reporting.py:246-249 | Length is the number of bytes between `stream` and `endstream` |
| `PdfRoundTrip.TreeIsFound` | src/access_review_engine/reporting.py:238-245 | the page tree leads to every page in order and counts them |
| `PdfRoundTrip.ReportReadsBack` | src/access_review_engine/reporting.py:202-263 | a reader that starts from the trailer finds every page with its lines if and only if the last object starts below byte 10^10 |
| `PdfRoundTrip.ReportIsFaithful` | src/access_review_engine/reporting.py:202-263 | it finds the wrapped lines themselves if and only if the report is Latin-1 without carriage returns |
| `PdfExample.DashesAreNotFound` | src/access_review_engine/reporting.py:181-186 | a report of the line of dates, none of them set: the reader finds question marks instead of em dashes |
| `PdfExample.LongReportIsNotFound` | src/access_review_engine/reporting.py:251-263 | a report of 290 000 000 000 lines or more: its last object starts at byte 10^10 or later, and the reader does not find it |
| `PdfRoundTrip.PagesHoldTheText` | src/access_review_engine/reporting.py:204-215 | the pages hold the whole text, within 112 characters and 58 lines |
| `PdfBytes.FileIsBytes` | src/access_review_engine/reporting.py:251-263 | every character of the report has a one-byte code: encoding cannot fail and offsets are byte offsets |

## Left out

- EffectiveAccessEngine.CalculateEffectiveAccesses: does not sort the finished results by key nor the diagnostics by their printed form; results are a map and diagnostics a list in the order they were found.
- Comparison.CompareSnapshot: does not sort the finished rows, and a row has its key, expected, observed and classification only; findings and display fields of a row are not part of this model.
- GoldenDiff.Diff: does not sort the finished rows.
- AccessReconciliation.ReconcileAccesses: accesses are values told apart by their ids, where the engine changes shared objects and compares records; the conflict test and the enrichment cover the fields of the model.
- AccessReconciliationTheorems.ImportsArriveExactly: stored and imported accesses have unique names, ids and native ids on their side and imported ids are new; the engine checks this for stored names only.
- IdentityReconciliation.ReconcileIdentities: identities are values; the tombstone name is a datatype instead of a text with a `#deleted:` suffix.
- GoldenFreeze.PromoteSnapshot: version ids, checksums and comments of a version are not part of this model.
- Promotion.PromoteCampaign: version ids, checksums and comments of a version are not part of this model.
- Composition.Compose: source import ids, completeness and the snapshot's own comparison rows are not part of this model; case folding is a parameter.
- FunctionalContext.Resolve: application names, display labels and completeness of the models are not part of this model; a right is one text for its application, resource and capability, and its provenance the access and the position in its model.
- CampaignStore.Store.OpenCampaign: the choice of comparison rows by campaign scope, the captured access contexts and the check that the pilot is an enabled account are not part of this model; the prepared rows, accesses and owners are inputs.
- CampaignStore.Store.ReassignReviews: the new reviewer is an enabled account whose name is already lower case; lower-casing stored names is a parameter.
- CampaignStore.Store.DeleteCampaign: finding tracking and captured contexts, which are deleted with the campaign, are not part of this model.
- CampaignTheorems.ClosedCampaignsAreFrozen: opening and closing times are not part of the record of a campaign; closing a closed campaign from the command line again renews its closing time.
- Campaign steps are atomic: closing through the web interface and the commands of the command line commit their rows one by one. The script that fills a database for crash tests stores campaigns past all steps and is not part of this model.
- Editing a draft campaign and refusing a promotion are steps of the lifecycle without a method of their own.
- PerimeterRepository.Repository.CreatePerimeter: names arrive without surrounding blanks.
- PdfDocument.PdfDocument: page and content numbers are kept as numbers instead of being read back from their references.
- Composition.DeriveGrants: a derived grant is filed by its parent and child; the engine's id is the digest of both joined with `|`, which two grants share when their names contain that character in different places.
- Stable keys are datatypes; when the texts that the engine compares agree as they do is in `StableTexts`.
- Findings, owner checks, authentication posture and business context label rows and accesses; no matching, promotion or step of a campaign reads the labels.
- Campaign rows are selected by provider, access or perimeter link before a campaign is opened; the selected rows are an input of the opening, and what is proved of it holds for every selection.
- Renaming stored assignments and relations after an import: rewrites fields by the detected renames.
- Roles, sessions, tokens and provider scopes: a step is taken to be permitted.
- Collectors, importers, databases, web pages, reports in HTML, CSV and JSON, and the assistants: input and output without a hard invariant.
