# Indico core invariants

Models of six parts of Indico that each keep something redundant, or recover
something by a clever route, with proofs that the redundant or fast form always
agrees with the plain one.

* **Protection** (`ProtectionTree`, `Protection`, `ProtectedState`,
  `ProtectedRemoval`, `ProtectedNode`). Conference, sessions, contributions,
  sub-contributions, materials and resources each have a protection level of
  -1, 0 or 1; from materials upwards each caches the descendants whose level is
  not 0. The objects are modelled as a class whose fields are changed in place,
  with the notifications, the mutual recursion between contribution and session,
  and the cascading deletes. Every operation keeps every cache exact, and with
  exact caches the "fully public" and "fully private" checks are right about the
  whole subtree although they read a single set; only the resources of reviewing
  material, which report to nobody, can make a difference.
* **Categories** (`CategoryTree`, `CategoryRepair`, `Category`,
  `CategoryVisibility`, `CategoryOrdering`). Counters pushed up the owner chain,
  links with conferences kept by two methods that call each other, splitting,
  moving and recursive deletion, the two-phase repair script, inherited
  visibility, and the listing that encodes, sorts and decodes.
* **Class linearisation** (`C3`, `Mro`). The destructive merge and the recursion
  over the bases.
* **Paper reviewing** (`Reviewing`, `ReviewManager`, `AnswerPurge`). A state
  machine over requests, with the objects proved to follow it step by step.
* **Authors, tracks, times** (`AuthorIndex`, `AuthorKeys`, `Authors`, `Tracks`,
  `Timing`). The
  index of authors by name, kept through every change of a name, removal and
  withdrawal, and through every addition but one, which is named; contributions
  and tracks that call each other; the two ways of recalculating a slot, and fitting a session.
* **Undo paging** (`UndoPaging`). Pages of a log that grows in front because of
  the undo commits themselves.

`Common` holds optional values and what Python's lists do.

## How to read it

The tree, registry and index properties are stated on values: maps from object
to owner, list or counter. The classes hold the fields; a ghost set of all
objects concerned (`S`, `F`, `C`, `P`, `T`, `K`) gives those maps at any moment
(`Node.SkeletonOf`, `Category.ParentsOf`, `Conference.Keys` and so on), and each
method's contract says how the maps change. `Valid` is the invariant. It holds
where things begin (`ProtectedNodes.NewEvent`, `Categories.Category.Beginning`,
`Authors.Conference.constructor`, `Tracks.NewTrack`), it is kept when an object
is made and when a request is served, and so it holds after any run of them. A
request that can break it says when: `Valid` is kept if and only if a condition
on the state before holds.

`rank` in `Category` is a ghost number that grows down the tree. It witnesses
that following owners ends, and says only that a category is never moved below
itself.

Where a request ends in an error the transaction is aborted, so the model
returns the refusal and leaves the state alone. For `moveConference`,
`_addSubCategory` and `recalculateTimes` it describes the state in which the
exception is raised.

## What the code does differently from what it says

* `Conference.delete` goes through the list of owners while each
  `removeConference` shortens it, so of several owners that list the conference
  every second one keeps it (`Categories.EverySecondSurvives`). It is unlinked
  everywhere if and only if it has one owner at most
  (`Categories.UnlinkedWithOneOwner`); when a category deletes it out of its own
  list, if and only if that category is the first of at most two owners or the
  second of at most three (`Categories.UnlinkedFromCategory`). The counters stay
  right in any case (`Categories.Conference.Delete`).
* `moveConference` adds the event to its target even if the category it is said
  to leave does not list it, so a move form that is sent again gives the event a
  second owner (`Categories.StaleMove`), or makes it counted twice in one
  category (`Categories.SameMoveTwice`). Every other request of the application
  leaves each event at most one owner, and then the registry stays in order and
  every deletion unlinks what it should. With two owners a deleted event can stay
  listed (`Categories.DeletedButListed`), and `_addConference`, `_addSubCategory`
  and `move` go wrong exactly where a target lists an event already
  (`Categories.Category.MoveConference`, `Categories.Category.AddSubCategory`).
* The repair script leaves out what is listed below a category that lists
  conferences itself (`CategoryRepair.RepairIsExact`).
* A presenter who is an author already is added again when dragged to a list of
  authors, and the index then holds the author twice
  (`Authors.Contribution.Drag`, `Authors.DraggedTwice`).
* `purgeAnswers` skips the answer after each one it removes, so up to half of
  the stale answers stay (`AnswerPurge.OnePass`, `AnswerPurge.HalfSurvives`). It
  removes all of them if and only if no two neighbours are both stale
  (`AnswerPurge.ExactWithoutStaleNeighbours`).
* Setting or reading a criterion that has been removed makes an answer without a
  question, and `purgeAnswers` fails on it (`AnswerPurge.StopsAfterEvenRun` says
  when). A submitted verdict can then be past withdrawing, whatever questions are
  removed (`Reviewing.WithdrawnUnlessStuck`), and reading is allowed after the
  verdict is submitted (`Reviewing.StuckAfterAcceptance`).
* `getReviewingState` compares the names of statuses, and `editStatus` renames
  any status. Renaming the status of a verdict given leads into the branch that
  is marked as never reached (`Reviewing.RenamedAfterAcceptance`), and nothing
  else does (`Reviewing.NeverHereMeansRenamed`).
* `Session.fit` takes the session's own end as the first candidate for the
  earliest start: if all slots start later, the new start is the old end, not
  the first slot (`Timing.FitIsHullIff`, `Timing.OneFitIsNotEnough`).
* The oldest transaction of the log survives a recovery to a date before it,
  unless the length of the log is a multiple of 1000
  (`UndoPaging.OldestMaySurvive`).
* `%04s` pads strings and not numbers, so children numbered 10000 and above can
  be listed before smaller ones: 10000 always before 9999
  (`CategoryOrdering.FiveDigitsComeFirst`), and in general for some names unless
  `CategoryOrdering.InOrderWhateverTheNames` says otherwise.
* Siblings with one number are meant to come by name, but the dash that follows
  each name takes part: of two names that go on alike, the longer one comes
  first if it continues with a space (`CategoryOrdering.NamesInOrder`).
* The key of an author does not tell a blank inside a name from the one between
  two names, so different people can share a bucket
  (`AuthorKeys.BlankMovesBetweenNames`).
* The check at the end of `recalculateTimes("duration")` that would extend the
  slot never fires: the last entry ends with the slot by then.

## Model

| member | source | states |
|---|---|---|
| `ProtectionTree.LevelKeepsExact` | indico/MaKaC/conference.py:6194-6196 | setting a level and notifying every owner up to the conference leaves each cache equal to the set of descendants with a level of their own |
| `ProtectionTree.UntrackedLevelKeepsExact` | indico/MaKaC/conference.py:11388-11392 | for a resource of reviewing material, which nobody tracks, exactness needs no notification |
| `ProtectionTree.HidingKeepsExact` | indico/MaKaC/conference.py:5297-5305 | a notification that deletes takes the node out of every owner's cache and out of no other |
| `ProtectionTree.DroppingKeepsExact` | indico/MaKaC/conference.py:10874-10879 | a node without children that nobody reports any more can be detached |
| `ProtectionTree.OwnersAfterMove` | indico/MaKaC/conference.py:8189-8200 | a move between session and conference changes the owners of the contribution and of all below it, and of no other node |
| `ProtectionTree.LeavingKeepsExact` | indico/MaKaC/conference.py:6124-6142 | leaving a session without propagation keeps both the session's and the conference's cache exact |
| `ProtectionTree.EnteringKeepsExact` | indico/MaKaC/conference.py:6104-6118 | entering a session with propagation keeps every cache exact, for the contribution and all it reports |
| `ProtectionTree.OwnersAreMetGoingUp` | indico/MaKaC/conference.py:5297-5305 | the owners that hear of a node are exactly those met going up from it, owner by owner |
| `ProtectionTree.CacheHolds` | indico/MaKaC/conference.py:10630-10637 | kind by kind: conferences, sessions, contributions and materials hold exactly the nodes with a level of their own met below them that do not belong to reviewing material, and no other object holds anything |
| `ProtectedState.LevelChangeKeepsValid` | indico/MaKaC/conference.py:10909-10912 | a level change keeps links and caches in order together |
| `ProtectedState.NewPartKeepsValid` | indico/MaKaC/conference.py:9096-9100 | a new node at level 0 needs no notification |
| `ProtectedState.MoveKeepsValid` | indico/MaKaC/conference.py:8189-8200 | a contribution moved between any two of: no session, a session, another session, leaves every cache exact and every link two-sided |
| `ProtectedState.MoveInTwoSteps` | indico/MaKaC/conference.py:8189-8200 | moving between two sessions is leaving one and entering the other |
| `ProtectedRemoval.WithdrawalKeepsValid` | indico/MaKaC/conference.py:8084-8106 | the notification a contribution sends before it is emptied hides its whole subtree from all owners, exactly |
| `ProtectedRemoval.RetiringKeepsValid` | indico/MaKaC/conference.py:10874-10879 | a deleted leaf disappears from the caches of all owners and from its container |
| `ProtectedRemoval.DoomedInSteps` | indico/MaKaC/conference.py:5411-5431 | removing the subtrees of the parts one at a time removes exactly the subtree of the whole |
| `ProtectedNodes.Node.GoesAlong` | indico/MaKaC/conference.py:5411-5431 | what is deleted with an object is exactly the object and all it is met above |
| `ProtectedNodes.Node.constructor` | indico/MaKaC/accessControl.py:78-91 | a new controller is at level 0 with an empty set |
| `ProtectedNodes.Node.UpdateNonInheritingChildren` | indico/MaKaC/conference.py:5297-5305 | one notification updates the caches of the node and of all its owners, and of nobody else |
| `ProtectedNodes.Node.UpdateOwn` | indico/MaKaC/accessControl.py:461-466 | on a conference, session, contribution or material the element is kept in the set exactly if it is not deleted and has a level of its own; sub-contributions and resources keep no set |
| `ProtectedNodes.Node.CachesHold` | indico/MaKaC/accessControl.py:461-466 | in every valid event the caches hold, kind by kind, what CacheHolds says |
| `ProtectedNodes.Node.SetProtection` | indico/MaKaC/conference.py:10909-10912 | the level is set, everything else keeps its place, and the caches of conferences, sessions, contributions and materials hold exactly the objects met below them that have a level of their own, but for resources of reviewing material |
| `ProtectedNodes.Node.NewPart` | indico/MaKaC/conference.py:9096-9100 | creating a part keeps the event in order |
| `ProtectedNodes.Node.SetSession` | indico/MaKaC/conference.py:8189-8200 | the contribution ends in exactly the session asked for: it leaves the old one, enters the new one, and both caches follow |
| `ProtectedNodes.Node.RemoveContribution` | indico/MaKaC/conference.py:6124-6142 | started from the session, the contribution ends in no session and its subtree leaves this session's cache only |
| `ProtectedNodes.Node.AddContribution` | indico/MaKaC/conference.py:6104-6118 | started from the session, the contribution leaves its old session first and its subtree is reported to the new one |
| `ProtectedNodes.Node.Reassign` | indico/MaKaC/conference.py:6104-6142 | from either entry point a move keeps the whole event valid |
| `ProtectedNodes.Node.DeleteMaterial` | indico/MaKaC/conference.py:10874-10879 | the material and its resources are gone, the rest is as before, and every cache is exact |
| `ProtectedNodes.Node.DeleteSubContribution` | indico/MaKaC/conference.py:10551-10566 | the same for a sub-contribution with its materials |
| `ProtectedNodes.Node.DeleteContribution` | indico/MaKaC/conference.py:8084-8126 | the same for a contribution, in a session or not, whose cache is notified before its parts go |
| `ProtectedNodes.Node.DeleteSession` | indico/MaKaC/conference.py:3331-3343 | the session and its materials are gone, its contributions stay in the conference, and every cache is exact |
| `ProtectedNodes.Node.DeleteSessionAndContributions` | indico/MaKaC/conference.py:3336-3342 | with its contributions: the whole subtree is gone and every cache is exact |
| `ProtectedNodes.Node.IsProtected` | indico/MaKaC/accessControl.py:143-145 | the recursive check along the owners |
| `ProtectedNodes.Node.IsFullyAccess` | indico/MaKaC/accessControl.py:32-45 | for every object with a controller of its own, resources included, the answer read off one cache is right about all that is reported, and about the whole subtree if and only if besides no resource of reviewing material has the opposite level |
| `ProtectedNodes.NewEvent` | indico/MaKaC/accessControl.py:78-91 | an event starts with exact caches |
| `Protection.CategoryDecidedByNearest` | indico/MaKaC/accessControl.py:114-145 | a category is protected according to the nearest category up the chain with a level of its own |
| `Protection.DecidedByNearest` | indico/MaKaC/accessControl.py:114-145 | a node is protected according to the nearest node up the chain with a level; if there is none, if any owner of the conference is |
| `Protection.UniformBelow` | indico/MaKaC/accessControl.py:32-45 | if all descendants with a level have this level, protection is the same throughout the subtree |
| `Protection.FullyAccessRefinesSubtree` | indico/MaKaC/accessControl.py:32-45 | with exact caches the cached check holds if and only if no node (or every node) of the subtree is protected, resources of reviewing material left out |
| `Protection.FullyAccessWithReviewing` | indico/MaKaC/accessControl.py:32-45 | the same for the whole subtree, if and only if besides none of these resources has the opposite level of its own |
| `CategoryTree.UnlistingKeepsDrift` | indico/MaKaC/conference.py:1144-1154 | removing a conference keeps the error of every counter, whatever it was |
| `CategoryTree.ListingDrift` | indico/MaKaC/conference.py:1106-1114 | adding a conference adds an error of one to the category and all its ancestors exactly if the conference was listed already |
| `CategoryTree.ListingKeepsForest` | indico/MaKaC/conference.py:1106-1114 | adding keeps all counters right if and only if the conference was not listed yet |
| `CategoryTree.CuttingDrift` | indico/MaKaC/conference.py:1064-1072 | cutting a subcategory loose passes its own error on to all its ancestors |
| `CategoryTree.PlacesAfterCut` | indico/MaKaC/conference.py:1064-1072 | each ancestor loses exactly the true count of the subtree that goes |
| `CategoryTree.PlacesAfterHanging` | indico/MaKaC/conference.py:1060-1062 | each new ancestor gains exactly the true count of the subtree that comes |
| `CategoryTree.SplitIsCounted` | indico/MaKaC/conference.py:1046-1062 | handing the conferences down to a new subcategory leaves the counters of the category and of all its ancestors where they were |
| `CategoryTree.LeavingKeepsRegistry` | indico/MaKaC/conference.py:2641-2660 | a conference that leaves some of its owners, on both sides, leaves counters and links in order |
| `CategoryTree.NewConferenceKeepsRegistry` | indico/MaKaC/conference.py:1132-1135 | a conference that nobody lists yet leaves counters and links in order |
| `CategoryTree.SoleOwnersSpared` | indico/MaKaC/conference.py:984-987 | if no conference has two owners, a cascading deletion changes no list outside the subtree |
| `CategoryTree.TwoOwnersUnlinked` | indico/MaKaC/conference.py:984-987 | if no conference has three owners, it unlinks all conferences of the subtree everywhere and takes no other out of any list |
| `CategoryTree.InsideUnlinked` | indico/MaKaC/conference.py:984-987 | a conference listed in the subtree only is unlinked, whatever the number of its owners |
| `CategoryTree.EmptyParts` | indico/MaKaC/conference.py:979-983 | a zero counter means that nothing is listed anywhere below |
| `CategoryTree.BelowAfterDeletion` | indico/MaKaC/conference.py:984-985 | deleting the subtree of a subcategory leaves the rest of the subtree |
| `CategoryTree.AncestorsAreMetGoingUp` | indico/MaKaC/conference.py:1090-1104 | the ancestors of a category are exactly those met going up from it, owner by owner |
| `CategoryTree.RaisedGoingUp` | indico/MaKaC/conference.py:1090-1104 | a number pushed up reaches exactly the category and what is met going up from it |
| `CategoryTree.BelowGoingUp` | indico/MaKaC/conference.py:973-988 | the subtree that is deleted is exactly the category and all it is met above |
| `CategoryTree.CascadeSpelledOut` | indico/MaKaC/conference.py:973-988 | category by category: those deleted are empty and detached, the others keep owners and, but for the parent, subcategories; a list loses only conferences the subtree listed, and all of these where no conference has three owners; without leave to delete conferences lists and counters stay |
| `Categories.Conference.RemoveOwner` | indico/MaKaC/conference.py:2621-2627 | both sides are unlinked and the counters go down once, started from the conference; an owner listed twice goes twice, once from each side |
| `Categories.Conference.Delete` | indico/MaKaC/conference.py:2641-2660 | exactly which owners the loop leaves behind, with every counter as right as it was; with all links two-sided none is left if and only if there was at most one |
| `Categories.EverySecondSurvives` | indico/MaKaC/conference.py:2659-2660 | of owners that list the conference every second one is skipped by the loop |
| `Categories.UnlinkedWithOneOwner` | indico/MaKaC/conference.py:2659-2660 | so the conference is unlinked everywhere if and only if it has at most one owner |
| `Categories.SecondOwnerSurvives` | indico/MaKaC/conference.py:2659-2660 | of two owners the second still lists the deleted conference |
| `Categories.UnlinkedFromCategory` | indico/MaKaC/conference.py:1144-1154 | deleted out of the list of one of its owners, it is unlinked everywhere if and only if this is the first of at most two or the second of at most three |
| `Categories.Category.RemoveConference` | indico/MaKaC/conference.py:1144-1154 | both sides are unlinked and the counters go down once, started from the category; nothing happens if the conference is not listed |
| `Categories.Category.IncNumConfs` | indico/MaKaC/conference.py:1090-1104 | the counters of the category and of all its ancestors change by the number, and no others |
| `Categories.Category.AddConference` | indico/MaKaC/conference.py:1106-1114 | refused where there are subcategories or the event is not registered; otherwise both sides are linked and all counters up the chain rise |
| `Categories.Category.MoveConference` | indico/MaKaC/conference.py:1038-1044 | out of the old category, if it is listed there, and into the new one; when refused it has left already; the registry stays in order unless an accepting category listed it before, and events keep at most one owner unless one that has an owner is moved out of a category that does not list it |
| `Categories.StaleMove` | indico/MaKaC/webinterface/rh/categoryMod.py:486-515 | a run from the beginning: a move form sent again with another target gives the event two owners |
| `Categories.SameMoveTwice` | indico/MaKaC/webinterface/rh/categoryMod.py:486-515 | with the same target the registry is broken |
| `Categories.DeletedButListed` | indico/MaKaC/conference.py:2659-2660 | the event with two owners is deleted, and the second goes on listing it |
| `Categories.Category.RemoveSubCategory` | indico/MaKaC/conference.py:1064-1072 | ancestors lose the counter of the subtree and the link goes on both sides; nothing happens for a category that is no subcategory |
| `Categories.Category.AddSubCategory` | indico/MaKaC/conference.py:1046-1062 | conferences move down to the first subcategory, no count above changes but for what it brings, and one with subcategories of its own is refused; the registry stays in order if and only if the two listed no conference in common, which holds while no event has two owners |
| `Categories.Category.Move` | indico/MaKaC/conference.py:1002-1016 | counters follow out of the old parents and into the new ones; the registry stays in order under the same condition, and always while no event has two owners, which it keeps so |
| `Categories.Category.SetOwner` | indico/MaKaC/conference.py:944-948 | a change from one owner to another is a move; any other change writes one side only, and leaves the registry in order if and only if it changes nothing |
| `Categories.Category.NewSubCategory` | indico/MaKaC/conference.py:1074-1088 | the new category takes the conferences, and every existing counter stays the same |
| `Categories.Category.Beginning` | indico/MaKaC/conference.py:342-350 | no categories and no conferences are in order |
| `Categories.Category.NewConference` | indico/MaKaC/conference.py:1132-1142 | a new conference is registered, and listed with all counters up the chain risen by one exactly if there are no subcategories; the registry stays in order either way |
| `Categories.Category.RemoveAndDelete` | indico/MaKaC/conference.py:1144-1154 | deleting a conference out of a category keeps the registry in order although the link is half undone meanwhile; other lists lose at most this conference, and all lose it exactly under the condition of UnlinkedFromCategory |
| `Categories.Category.Delete` | indico/MaKaC/conference.py:973-988 | refused for the root, and for a category with conferences unless they may be deleted; otherwise exactly the subtree is emptied and detached, its parent loses it, and every counter left is right; outside, the lists lose exactly the conferences of the subtree if no conference has three owners, and none but those in any case |
| `Categories.Category.CheckEventNumberConsistency` | bin/maintenance/category_integrity.py:38-53 | the post-order pass gives every counter of the subtree what the script counts, once those of conference-holding categories are the lengths of their lists |
| `Categories.Category.CheckEventNumberLeaves` | bin/maintenance/category_integrity.py:56-90 | every registered category with conferences gets the length of its list |
| `Categories.Category.Repair` | bin/maintenance/category_integrity.py:69-111 | the two phases together, from any counters whatever, on any forest |
| `CategoryRepair.CountOfChildren` | bin/maintenance/category_integrity.py:45-52 | the true count of a category is the length of its list plus the true counts of its subcategories |
| `CategoryRepair.CountOfLeaf` | bin/maintenance/category_integrity.py:76-90 | the true count of a category without subcategories is the length of its list |
| `CategoryRepair.CountedIsTrue` | bin/maintenance/category_integrity.py:38-53 | what the script counts is right in a whole subtree if and only if nothing is listed below a category that lists conferences itself |
| `CategoryRepair.EitherHidesNothing` | indico/MaKaC/conference.py:1047-1059 | which holds where no category has both kinds of content |
| `CategoryRepair.RepairIsExact` | bin/maintenance/category_integrity.py:69-111 | run from the only root the script makes every counter equal to the true count if and only if nothing is so hidden |
| `CategoryRepair.RepairIsIdempotent` | bin/maintenance/category_integrity.py:38-66 | a second run changes nothing, and a run over right counters changes nothing if and only if nothing is hidden |
| `CategoryVisibility.LeastHorizon` | indico/MaKaC/conference.py:831-843 | the recursive visibility is the least of the horizons of the category and its ancestors |
| `CategoryVisibility.LeastOfOwnAndHorizons` | indico/MaKaC/conference.py:2345-2346 | the full visibility of an event is the least of its own and of these horizons, and never negative |
| `CategoryVisibility.DepthMinusVisibility` | indico/MaKaC/conference.py:831-843 | depth minus visibility does not decrease going down, exactly when the parent has an owner or a visibility of at least -1 set |
| `CategoryVisibility.NonNegativeBelowRoot` | indico/MaKaC/conference.py:831-843 | visibility is never negative below the root |
| `CategoryVisibility.ShownWithinAllHorizons` | indico/MaKaC/common/indexes.py:302-310 | an event is listed in an ancestor if and only if its own visibility and that of every category on the way reach that far |
| `CategoryOrdering.PaddedIncreases` | indico/MaKaC/conference.py:1160 | within four digits the padded strings are ordered like the numbers |
| `CategoryOrdering.DecodedId` | indico/MaKaC/conference.py:1163-1164 | splitting an encoded child gives its id back if and only if the id has no dash |
| `CategoryOrdering.InOrderWhateverTheNames` | indico/MaKaC/conference.py:1160-1161 | a child is listed before one with a greater number, whatever ids and names, if and only if its number is below 1000, or has as many digits as the other, or is below as many leading digits of the other |
| `CategoryOrdering.DecidedByNumbers` | indico/MaKaC/conference.py:1160-1161 | under that condition the codes are in the order of the numbers |
| `CategoryOrdering.UndecidedByNumbers` | indico/MaKaC/conference.py:1160-1161 | otherwise there are names for which the greater number comes first |
| `CategoryOrdering.FiveDigitsComeFirst` | indico/MaKaC/conference.py:1160 | 10000 is listed before 9999 |
| `CategoryOrdering.DashesDropped` | indico/MaKaC/conference.py:1160 | a name loses its dashes and nothing else, in whatever pieces it is taken |
| `CategoryOrdering.DecidedByNames` | indico/MaKaC/conference.py:1160-1161 | of two children with one number the names without dashes decide, each followed by a dash; with one name, the ids |
| `CategoryOrdering.NamesInOrder` | indico/MaKaC/conference.py:1160-1161 | which is the order of the names if and only if not one of them is the other continued with a character below the dash, such as a space |
| `CategoryOrdering.GetSubCategoryList` | indico/MaKaC/conference.py:1156-1166 | every child exactly once; a child comes after one with a greater number only where numbers do not decide, so in numeric order while these have at most four digits; children with one number come as their names without dashes do, and those with one name too as their ids |
| `CategoryOrdering.NewOrder` | indico/MaKaC/conference.py:1085-1086 | one more than the number listed last, so above all siblings while these have at most four digits |
| `C3.Merge` | bin/utils/inheritanceGraph.py:45-60 | the in-place loop over the lists computes the merge and consumes all lists on success; the result is a common order, and each of its elements heads, once those before it are dropped everywhere, a list ahead of any list headed by another acceptable candidate |
| `C3.MergeSound` | bin/utils/inheritanceGraph.py:45-60 | the result holds each element once and contains every list in order |
| `C3.GoodHeadExists` | bin/utils/inheritanceGraph.py:51-56 | while some order contains all lists, a head that is in no tail exists |
| `C3.TakeKeepsOrder` | bin/utils/inheritanceGraph.py:58-60 | taking any good head keeps a common order possible |
| `C3.MergeSucceeds` | bin/utils/inheritanceGraph.py:45-60 | the merge succeeds if a common order exists |
| `C3.MergeComplete` | bin/utils/inheritanceGraph.py:45-60 | the merge succeeds if and only if some duplicate-free order contains all lists; then all lists are duplicate-free |
| `C3.MergeTakesFirst` | bin/utils/inheritanceGraph.py:51-60 | a sequence is the result if and only if each element, once those before it are dropped from all lists, is an acceptable head and heads a list ahead of every list headed by another acceptable one, and nothing is left at the end |
| `Mro.MroSound` | bin/utils/inheritanceGraph.py:63-65 | the linearisation starts with the class, holds it and its ancestors once each, keeps the order of its bases, and contains the linearisation of every ancestor |
| `Mro.LocalPrecedenceEverywhere` | bin/utils/inheritanceGraph.py:63-65 | every class in it finds its own bases in declared order |
| `Mro.MroComplete` | bin/utils/inheritanceGraph.py:63-65 | a hierarchy is rejected exactly when those of its bases are, or have no common order |
| `Mro.MroTakesFirst` | bin/utils/inheritanceGraph.py:63-65 | the linearisation is so determined by the class itself, the linearisations of its bases in declared order, and the list of bases, tried in this order |
| `Reviewing.StepInv` | indico/MaKaC/contributionReviewing.py:83-287 | every request keeps versions, verdicts and reviewers in order |
| `Reviewing.RunInv` | indico/MaKaC/contributionReviewing.py:83-287 | so does every run |
| `Reviewing.ReviewingIsSafe` | indico/MaKaC/contributionReviewing.py:83-115 | over every run every assigned reviewer's opinion is found, and version ids are exactly 0 to the counter, once each |
| `Reviewing.NeverHereMeansRenamed` | indico/MaKaC/conference.py:10789-10806 | over every run, the branch that should never be reached is reached if and only if the verdict shown is one of the two final statuses and that status has been given another name |
| `Reviewing.NeverHereIsNeverReached` | indico/MaKaC/conference.py:10785-10806 | over every run that leaves these two names alone it is not reached, and the state shown is 0, 2, 3, 4 or 5 exactly if there is no reviewing, the author has not submitted, the referee has not, the submitted verdict is Accept, or it is Reject |
| `Reviewing.JudgedPaper` | indico/MaKaC/conference.py:10795-10808 | runs of four requests after which a paper is shown as accepted, as rejected, and as to be submitted again |
| `Reviewing.RenamingReaches` | indico/MaKaC/paperReviewing.py:459-466 | on a paper with a verdict, renaming its status reaches the branch if and only if the new name is neither Accept nor Reject |
| `Reviewing.RenamedAfterAcceptance` | indico/MaKaC/paperReviewing.py:459-466 | a run of five requests that reaches it |
| `Reviewing.UnguardedChangeBreaks` | indico/MaKaC/services/implementation/reviewing.py:817-820 | after a run that gets a paper accepted, a change of judgement is refused, and without the guard it would reach that branch |
| `Reviewing.OneVersionPerVerdict` | indico/MaKaC/contributionReviewing.py:83-91 | over every run there is one version more than times the paper was sent back |
| `Reviewing.VersionStartsWhen` | indico/MaKaC/contributionReviewing.py:495-550 | a request starts a new version if and only if it is an accepted press by the referee, or by the editor under layout reviewing, on status 2 or one above 3 |
| `Reviewing.PressGoesThrough` | indico/MaKaC/contributionReviewing.py:441-550 | a press goes through if and only if a status is chosen, the paper is there where it is copied, and a purge that is due passes |
| `Reviewing.PressTurnsFlag` | indico/MaKaC/contributionReviewing.py:495-584 | a press that sends nothing back turns the flag of that judgement and no other, purges its answers if it is withdrawn, and copies the material if it is the referee's |
| `Reviewing.SentBackStartsAfresh` | indico/MaKaC/contributionReviewing.py:512-517 | after a correction verdict the paper waits for a new submission, with fresh judgements for exactly the assigned reviewers |
| `Reviewing.VerdictStands` | indico/MaKaC/conference.py:10793-10799 | an accepted or rejected paper stays so under every other request that does not rename its status |
| `Reviewing.VerdictWithdrawn` | indico/MaKaC/contributionReviewing.py:495-508 | pressing again takes a final verdict back without a new version if and only if the purge of the answers goes through |
| `Reviewing.StuckForGood` | indico/MaKaC/contributionReviewing.py:451-453 | a submitted verdict that is stuck cannot be withdrawn by any run that starts no new version |
| `Reviewing.WithdrawnUnlessStuck` | indico/MaKaC/contributionReviewing.py:495-508 | a submitted verdict can be withdrawn by some run that starts no new version if and only if it is not stuck: every answer without a question has an odd run of answers with questions right before it, back to one whose question exists or that has none, or to the start |
| `Reviewing.AnsweredOneEach` | indico/MaKaC/contributionReviewing.py:408-433 | no question is given two answers |
| `Reviewing.AnswerMade` | indico/MaKaC/contributionReviewing.py:408-439 | an answer that exists is left alone; otherwise one is appended under the next id, without a question if that is gone |
| `Reviewing.ObstructedWhen` | indico/MaKaC/contributionReviewing.py:408-414 | looking for an answer fails if and only if one without a question comes before it |
| `Reviewing.ReadingSticks` | indico/MaKaC/services/implementation/reviewing.py:850-855 | on a verdict without answers, reading a criterion gets it stuck if and only if the criterion does not exist |
| `Reviewing.StuckAfterAcceptance` | indico/MaKaC/services/implementation/reviewing.py:850-855 | a run that does |
| `Reviewing.OpinionsFound` | indico/MaKaC/contributionReviewing.py:668-679 | the lookup of opinions succeeds exactly if every assigned reviewer has a judgement in the last review |
| `ReviewManagers.ReviewManager.constructor` | indico/MaKaC/contributionReviewing.py:53-63 | a contribution starts with version 0 |
| `ReviewManagers.ConferencePaperReview.constructor` | indico/MaKaC/paperReviewing.py:111-117 | a conference starts with the three statuses under the ids 1, 2 and 3 |
| `ReviewManagers.ConferencePaperReview.SetChoice` | indico/MaKaC/paperReviewing.py:320-326 | the mode changes, the lists do not |
| `ReviewManagers.ConferencePaperReview.AddStatus` | indico/MaKaC/paperReviewing.py:406-412 | the next id, at the end of the list |
| `ReviewManagers.ConferencePaperReview.RemoveStatus` | indico/MaKaC/paperReviewing.py:448-457 | fails for an id that is not in the list |
| `ReviewManagers.ConferencePaperReview.EditStatus` | indico/MaKaC/paperReviewing.py:459-466 | any status of the list takes the new name, the three fixed ones included |
| `ReviewManagers.ConferencePaperReview.AddReviewingQuestion` | indico/MaKaC/paperReviewing.py:479-485 | the next id of the counter that layout questions use too, at the end of the list |
| `ReviewManagers.ConferencePaperReview.RemoveReviewingQuestion` | indico/MaKaC/paperReviewing.py:498-507 | fails for an id that is not in the list; the id never comes back |
| `ReviewManagers.ConferencePaperReview.AddLayoutQuestion` | indico/MaKaC/paperReviewing.py:522-528 | the same for layout questions |
| `ReviewManagers.ConferencePaperReview.RemoveLayoutQuestion` | indico/MaKaC/paperReviewing.py:541-550 | the same for layout questions |
| `ReviewManagers.ReviewManager.NewReview` | indico/MaKaC/contributionReviewing.py:83-91 | a new review is appended with judgements for the current reviewers; the old one stays as it is |
| `ReviewManagers.ReviewManager.SetReferee` | indico/MaKaC/contributionReviewing.py:131-148 | refused if there is one |
| `ReviewManagers.ReviewManager.RemoveReferee` | indico/MaKaC/contributionReviewing.py:150-168 | editor and reviewers go too |
| `ReviewManagers.ReviewManager.SetEditor` | indico/MaKaC/contributionReviewing.py:187-206 | needs a referee, or layout reviewing only |
| `ReviewManagers.ReviewManager.AddReviewer` | indico/MaKaC/contributionReviewing.py:235-256 | needs a referee; a judgement left from an earlier assignment is kept |
| `ReviewManagers.ReviewManager.RemoveReviewer` | indico/MaKaC/contributionReviewing.py:258-272 | the reviewer leaves the list, the judgement stays |
| `ReviewManagers.ReviewManager.SetAuthorSubmitted` | indico/MaKaC/services/implementation/reviewing.py:878-882 | needs material |
| `ReviewManagers.ReviewManager.SetJudgement` | indico/MaKaC/services/implementation/reviewing.py:817-820 | only while the judgement is not submitted |
| `ReviewManagers.ReviewManager.SetAnswer` | indico/MaKaC/services/implementation/reviewing.py:845-848 | one answer per question, without a question if that is gone; fails while an answer without a question stands before the one sought, or if the judgement is submitted |
| `ReviewManagers.ReviewManager.ReadAnswer` | indico/MaKaC/services/implementation/reviewing.py:850-855 | the same without the guard |
| `ReviewManagers.ReviewManager.ToggleSubmitted` | indico/MaKaC/contributionReviewing.py:495-517 | submitting or withdrawing is the step of the state machine; a correction verdict appends a new review object, and a withdrawal fails with the purge of the answers |
| `ReviewManagers.ReviewManager.GetReviewById` | indico/MaKaC/contributionReviewing.py:106-110 | finds a review exactly for the ids in the list |
| `ReviewManagers.ReviewManager.GetSortedVersioning` | indico/MaKaC/contributionReviewing.py:112-115 | the list is permuted in place into descending ids; the last review stays the same object |
| `ReviewManagers.DescendingUnique` | indico/MaKaC/contributionReviewing.py:112-115 | a decreasing list of exactly the ids below n is n-1, n-2, ..., 0 |
| `AnswerPurge.PurgeAnswers` | indico/MaKaC/contributionReviewing.py:447-453 | the loop with the list's own index computes one pass, or fails where that comes to an answer without a question |
| `AnswerPurge.OnePass` | indico/MaKaC/contributionReviewing.py:447-453 | one pass keeps every answer whose question exists, in order, and at most half of the others |
| `AnswerPurge.HalfSurvives` | indico/MaKaC/contributionReviewing.py:447-453 | of only stale answers exactly half survive, rounded down |
| `AnswerPurge.ExactWithoutStaleNeighbours` | indico/MaKaC/contributionReviewing.py:447-453 | one pass removes every stale answer if and only if no two neighbours are both stale |
| `AnswerPurge.RightWithoutStaleNeighbours` | indico/MaKaC/contributionReviewing.py:447-453 | it goes through and does so if and only if besides every answer has a question |
| `AnswerPurge.StopsAfterEvenRun` | indico/MaKaC/contributionReviewing.py:447-453 | it fails if and only if some answer without a question has an even number of stale ones right before it |
| `AnswerPurge.PassesAfterRemovals` | indico/MaKaC/contributionReviewing.py:447-453 | with one answer per question, removing some of the questions that exist makes the pass go through if and only if every answer without a question has such an odd run right before it |
| `AnswerPurge.SecondOfTwoStays` | indico/MaKaC/contributionReviewing.py:447-453 | of two stale answers the second stays |
| `AnswerPurge.LogarithmicallyManyPasses` | indico/MaKaC/contributionReviewing.py:555-561 | after k passes the list is the exact filtered one if fewer than 2^k answers were stale |
| `AuthorIndex.IndexingKeepsExact` | indico/MaKaC/conference.py:7518-7525 | indexing keeps the index exact if and only if the author was not in it |
| `AuthorIndex.AddingKeepsExact` | indico/MaKaC/conference.py:8390-8407 | adding an author under an id that another or the very same may have keeps the index exact if and only if nobody has it |
| `AuthorIndex.UnindexingKeepsExact` | indico/MaKaC/conference.py:7527-7536 | unindexing removes exactly this author, with the bucket if it was the last, and is harmless otherwise |
| `AuthorIndex.RenamingKeepsExact` | indico/MaKaC/conference.py:7357-7364 | an author out of the index can take any key |
| `AuthorIndex.ExactIsUnique` | indico/MaKaC/conference.py:4434-4439 | two exact indexes have the same non-empty buckets with the same authors |
| `AuthorIndex.MoreKeysKeepExact` | indico/MaKaC/conference.py:7236-7246 | participations that nobody indexes leave the index exact |
| `AuthorIndex.OverwrittenAuthorStays` | indico/MaKaC/conference.py:8390-8407 | an author added under a taken id leaves the other one in the index |
| `AuthorIndex.BucketByBucket` | indico/MaKaC/conference.py:7518-7536 | indexing appends to the bucket of the key, unindexing takes the first occurrence out of it, with the bucket if nothing is left; other buckets stay |
| `AuthorKeys.LowerPointwise` | indico/MaKaC/conference.py:7515 | lowering changes A to Z, each into its small letter, and nothing else |
| `AuthorKeys.StripIs` | indico/MaKaC/conference.py:7358 | stripping takes away the blanks at either end, all of them, and nothing else |
| `AuthorKeys.KeyIs` | indico/MaKaC/conference.py:7514-7516 | family name, first name and e-mail in lower case, separated by spaces, as far as the last that is given |
| `AuthorKeys.KeyTellsParts` | indico/MaKaC/conference.py:7514-7516 | the three parts can be read back from the key when they hold no blank and there is a family name |
| `AuthorKeys.KeysEqual` | indico/MaKaC/conference.py:7514-7516 | then two keys are equal if and only if the three parts are equal but for case |
| `AuthorKeys.BlankMovesBetweenNames` | indico/MaKaC/conference.py:7514-7516 | with blanks inside they need not be: a word at the end of the family name is not told from one at the start of the first name |
| `Authors.Conference.IndexHolds` | indico/MaKaC/conference.py:7518-7536 | in every valid state a participation is in exactly the bucket of its key, once, if it is an author of a contribution of the conference that is not withdrawn, and in none otherwise |
| `Authors.Conference.SharedBucket` | indico/MaKaC/conference.py:7514-7516 | two people in the index share a bucket if and only if names and e-mail are the same but for case, where these hold no blank and there is a family name |
| `Authors.Conference.IndexAuthor` | indico/MaKaC/conference.py:4449-4455 | indexes under the author's key unless the contribution does not have the author or is withdrawn; which authors share a key is in AuthorKeys.KeysEqual and Authors.Conference.SharedBucket |
| `Authors.Conference.constructor` | indico/MaKaC/conference.py:2092 | a conference starts with an empty index, which is exact |
| `Authors.Conference.NewContribution` | indico/MaKaC/conference.py:7679-7682 | a contribution made without authors keeps every index exact |
| `Authors.Conference.NewParticipation` | indico/MaKaC/conference.py:7236-7246 | so does a participation that belongs to no contribution yet |
| `Authors.Contribution.NumberedIsFree` | indico/MaKaC/conference.py:8403-8405 | while ids come from the contribution's counter, the id of a new participation, or of a presenter who is no author, is free |
| `Authors.Contribution.NewSpeaker` | indico/MaKaC/conference.py:8805-8827 | a presenter keeps or takes an id and becomes neither author nor indexed; everything stays in order unless a newcomer brings an id that an author has |
| `Authors.Conference.UnindexAuthor` | indico/MaKaC/conference.py:4457-4462 | unindexes if the contribution has the author |
| `Authors.Participation.SetFirstName` | indico/MaKaC/conference.py:7357-7364 | the index is exact after a change of first name |
| `Authors.Participation.SetFamilyName` | indico/MaKaC/conference.py:7374-7381 | the same for the family name |
| `Authors.Participation.SetEmail` | indico/MaKaC/conference.py:7391-7398 | the same for the e-mail |
| `Authors.Contribution.AddPrimaryAuthor` | indico/MaKaC/conference.py:8422-8437 | the author is listed, at the place asked for, and indexed; the index stays exact if and only if nobody, not even the author, has the id already or the contribution is not indexed; everything stays in order if and only if no presenter has it either |
| `Authors.Contribution.AddCoAuthor` | indico/MaKaC/conference.py:8683-8698 | the same for co-authors |
| `Authors.InsertedIs` | indico/MaKaC/conference.py:8422-8437 | the author stands at the index asked for, or last, and the others keep their order |
| `Authors.DraggedIs` | indico/MaKaC/services/implementation/contribution.py:512-530 | what each list of authors becomes when somebody is dragged |
| `Common.WithoutCuts` | indico/MaKaC/conference.py:8439-8459 | removing from a list takes the first occurrence out and leaves the others in their order |
| `Authors.Contribution.RemovePrimaryAuthor` | indico/MaKaC/conference.py:8439-8459 | the author is in no list and not in the index, and the id is free for coming back |
| `Authors.Contribution.RemoveCoAuthor` | indico/MaKaC/conference.py:8700-8720 | the same for co-authors |
| `Authors.Contribution.Drag` | indico/MaKaC/services/implementation/contribution.py:512-530 | between the lists of authors an author keeps the id and everything stays in order; out of the presenters it does if and only if the presenter is no author yet |
| `Authors.DraggedTwice` | indico/MaKaC/services/implementation/contribution.py:522-525 | three requests after which the index holds an author twice |
| `Authors.Contribution.Withdraw` | indico/MaKaC/conference.py:9384-9407 | withdrawing takes exactly the contribution's authors out of the index, restoring puts exactly them back |
| `Authors.Conference.AddContribution` | indico/MaKaC/conference.py:3400-3426 | a withdrawn contribution is refused; otherwise its authors are indexed |
| `Authors.Conference.RemoveContribution` | indico/MaKaC/conference.py:3432-3448 | all authors go, from both lists and from the index; nothing happens to a contribution of another conference |
| `Authors.Conference.RebuildAuthorIndex` | indico/MaKaC/conference.py:4434-4439 | rebuilding gives the same buckets, with the same authors in each and none empty, as the index kept so far |
| `Tracks.Contribution.SetTrack` | indico/MaKaC/conference.py:9334-9342 | whatever the links were, the contribution has the new track and leaves the list of the old one; it enters the list of the new one unless its id is taken there |
| `Tracks.Track.AddContribution` | indico/MaKaC/conference.py:12102-12113 | started from the track: nothing happens if the id is taken, otherwise the contribution leaves its old track and is on this one |
| `Tracks.Track.RemoveContribution` | indico/MaKaC/conference.py:12118-12129 | started from the track, the contribution ends on no track and leaves the list of its current one too; nothing happens if the id is not listed |
| `Tracks.AtMostOneTrack` | indico/MaKaC/conference.py:9334-9342 | in a coherent state a contribution is in at most one track |
| `Tracks.NewTrack` | indico/MaKaC/conference.py:11785-11795 | no tracks and no contributions are coherent, and stay so with one more track |
| `Tracks.NewContribution` | indico/MaKaC/conference.py:7690 | and with one more contribution under an id of its own |
| `Tracks.PutOnTrack` | indico/MaKaC/conference.py:9334-9342 | coherence is kept, started from the contribution |
| `Tracks.TakeOnTrack` | indico/MaKaC/conference.py:12102-12113 | coherence is kept, started from the track that takes |
| `Tracks.DropFromTrack` | indico/MaKaC/conference.py:12118-12129 | coherence is kept, started from the track that gives up |
| `Timing.Session.Fit` | indico/MaKaC/conference.py:5487-5491 | the method computes one fit, sentinels included |
| `Timing.FitCovers` | indico/MaKaC/conference.py:5487-5491 | one fit covers every slot |
| `Timing.FitIsHullIff` | indico/MaKaC/conference.py:5556-5576 | one fit gives the exact hull if and only if some slot starts no later than the old end; otherwise it starts at that end |
| `Timing.TwoFitsAreHull` | indico/MaKaC/conference.py:5487-5491 | two fits always give the hull, and a third changes nothing |
| `Timing.SessionSlot.RecalculateStarts` | indico/MaKaC/conference.py:6702-6715 | the first entry starts with the slot, each next one exactly the difference after the one before ends, durations are kept, and the slot ends where it did or the difference after its last entry ends, whichever is later |
| `Timing.SessionSlot.RecalculateDurations` | indico/MaKaC/conference.py:6686-6701 | starts are kept, gaps are exact and the last entry ends with the slot; it fails if and only if two entries start less than the difference apart or the last one starts after the slot's end by then, with all entries before the failing one filled up and the others as they were |
| `Timing.EndAfterIs` | indico/MaKaC/conference.py:8351-8388 | that end is the old one, or the difference before the latest start of an entry, whichever is later |
| `Timing.NotStretched` | indico/MaKaC/conference.py:8351-8388 | while no entry starts too late the slot keeps its end meanwhile |
| `UndoPaging.Database.Proceed` | bin/recovery/recovery.py:107-142 | exactly a prefix of the log is undone, newest first, each once, never one of its own: all newer transactions up to the first that is not newer, but never the last one of a log whose length is no multiple of 1000; the number reported is the number undone |
| `UndoPaging.PageShift` | bin/recovery/recovery.py:129-131 | after p pages of undoing, page 2p of the log is page p of the original log |
| `UndoPaging.UndoesAllNewer` | bin/recovery/recovery.py:107-143 | on a log in time order the prefix is the set of newer transactions |
| `UndoPaging.OldestMaySurvive` | bin/recovery/recovery.py:123-125 | all newer transactions are undone unless even the oldest is newer and the length is no multiple of 1000; then exactly that one survives |

## Left out

- Persistence, commits, the trash can, the `recover` paths, e-mails, log handlers, observers, Redis, schedules of rooms, and everything displayed.
- ProtectedNodes.Node.SetProtection: sub-contributions have no set of their own and inherit `Contribution`'s controller, so their level is not set here.
- ProtectedNodes.Node.DeleteSession: coordinators, conveners, registration sessions and slots are not part of this model. Sessions go through `Conference.removeSession`, as in the application; `delete` called directly is not modelled.
- Minutes, paper, slides, video and poster are materials like any other here; the reviewing material, whose resources nobody tracks, is a kind of its own.
- Lazy migration code (`try`/`except AttributeError`), and `_setNumConferences` for objects older than the counter.
- Categories.Conference.Delete: a conference that has the same owner twice, after the same move made twice, is not followed further.
- Categories.Category.AddSubCategory: the new subcategory has no owner, as in its two callers.
- Categories.Category.Move: a new owner at or below the category itself, for which counting up the owners never ends and the request fails.
- Categories.Category.Delete: which conferences with three owners or more stay listed outside depends on the order in which the subtree is visited.
- Categories.Category.SetOwner: the assignment made alone, as a step of `_addSubCategory` and `_removeSubCategory`, is inside `Cut` and `WriteLink`.
- Categories.Category.NewSubCategory: its number is modelled separately, as `CategoryOrdering.NewOrder`.
- Categories.Category.Repair: the checks that only print are left out.
- CategoryOrdering.NewOrder: ids contain no dash, here and in the listing it reads.
- CategoryOrdering.GetSubCategoryList: ids contain no dash, as those of the category manager's counter; `CategoryOrdering.DecodedId` says that others do not come back.
- CategoryVisibility.LeastHorizon: stated on the list of visibilities along the owner chain.
- Subcategories and conferences are visited in any order where the code goes through a sorted list; no result stated here depends on it.
- ReviewManagers.ReviewManager.ToggleSubmitted: a request that fails half-way (no status chosen, no material to copy) leaves no trace, because its transaction is aborted; submission dates and authors of judgements are left out.
- ReviewManagers.ReviewManager.SetAnswer: the value chosen is left out, and so are the texts of questions.
- Conference-level lists of who reviews what, due dates and access rights.
- Authors.Contribution.AddPrimaryAuthor: a participation of another contribution is not added; the application adds new ones, copies, and those of the contribution itself.
- AuthorIndex.IndexingKeepsExact: lower-casing and stripping are those of ASCII.
- The speaker index and the index of primary authors, which are not kept by the same rule.
- Timing.SessionSlot.RecalculateStarts: the checks and side effects of `setEndDate` on the slot (same day, session and conference dates) are left out.
- Timing.SessionSlot.RecalculateDurations: an entry whose new end is after the slot's stretches the slot, as `Contribution.setDuration` does; breaks are treated like contributions.
- Time zones: instants and durations are integers.
- UndoPaging.Database.Proceed: the log is a list in which each undo with its commit puts one transaction in front; conflicts raised by the storage are left out.
- C3.Merge: classes are compared by identity in the code and by value here.
