# Virtual directory namespace of the image dashboard

The dashboard stores images under flat, slash-delimited ids such as `themes/akurai/logo.webp`
and presents them as a directory tree. This project models, in Dafny, the code that builds and
reads that namespace:

- the worker's listing record, where the id falls back to the filename and the filename is the
  last segment of the id;
- the worker's tree builder `parseDirectoryTree` and its resolver `getDirectoryByPath`;
- the dashboard's client-side resolver `findNode` and the lists it displays;
- the sidebar's path predicates, its expand/collapse flag and its sorted children;
- the breadcrumb's segments and the paths its buttons navigate to;
- the upload dialog's id composition and its state across opening, dropping, uploading and
  closing.

## How the model is built

**JavaScript string operations.** These are written out as the language defines them
(`js_strings.dfy`). `split("/")` keeps empty segments, so `a//b` splits into three segments and a
trailing `/` gives a final empty one. `join`, `startsWith`, `filter(Boolean)`, `slice(0, end)` and
`trim` are modelled as well. `trim` removes the ECMAScript white-space and line-terminator
characters.

**The builder's objects.** The builder mutates JavaScript objects through references. Here the
nodes live in a store `h: seq<Node>` (`worker.dfy`), and a reference is an index into it:
- the root is node 0;
- a new subdirectory is appended at the end, so index order is creation order;
- the new node's index is pushed onto its parent's `subdirs`.

`ParseDirectoryTree` and `AddImage` are the outer `forEach` loop and its body as methods;
`Descend` is the inner loop and `Enter` its body. They are proved against two specifications
of the tree. `BuiltFrom` is stated through:
- `Walk`: follow the exactly-named child, segment by segment;
- `Placed`: the input images, in input order, whose directory segments lead to a node;
- `AllImages`: the images of all nodes together.

`FirstSeenOrder` fixes the order of every node's subdirectories: each non-root node is passed
through by the directory walk of some image (`Visits`), and siblings are listed in the order in
which the images first pass through them (`FirstVisit`). `ParseDirectoryTree` and `AddImage`
ensure both; `Descend` and `Enter` keep the facts the order proof needs, through `DescentOk`.

`SingleParent` says the store is a tree: every node but the root is listed by exactly one
parent. All four methods keep it. Through it, `ServedImagesOnce` shows that the JSON served for
the empty path, the root with its whole subtree, holds every input image exactly once;
`ParseDirectoryTree` ensures this too.

`GetDirectoryByPath` is its loop, proved equal to `Walk` on the query's segments.

**The tree the client holds.** The browser's tree is the value `Dir` that `ToTree(h, 0)` gives:
the JSON of the built root, in which every node carries both arrays. `FindNode`, `Search` and
`SearchFrom` model the recursive `search` and its `for-of` loop over that value.

**React components.** Each component's state lives in a class whose methods change it.
`DirectoryTree.DirectoryItem` holds the `expanded` flag. `UploadModal.UploadDialog` holds
`file`, `customPath`, `uploading`, `error` and `dragOver`.

**Leading separators.** Line 359 of `backend/worker.js` tests the accumulated path for
truthiness. So after leading empty segments the separator is dropped: the node reached from the
id `/a/x.png` by the segments `""`, `"a"` gets the path `"a"`, not `"/a"`. The model keeps this
behaviour and proves its consequences:
- the worker's returned path equals the query exactly when the query does not start with `/`
  (`Worker.ListingPathIsQuery`);
- the dashboard finds nothing for any query starting with `/` (`Dashboard.ClientMissesLeadingSlash`);
- for every non-empty query not starting with `/`, the two resolvers agree
  (`Dashboard.ClientMatchesServer`);
- `Dashboard.LeadingSlashDisagreement` gives a concrete store on which they differ. It holds a
  single image with id `/a/x.png` and satisfies the builder's postcondition, `BuiltFrom` and
  `FirstSeenOrder` both (`Dashboard.SlashStoreBuilt`). On it the worker
  resolves `/a` to the node whose path is `a`, while the dashboard finds neither `/a` nor `a`.
  `Dashboard.LeadingSlashLost` states the same for every store that satisfies `BuiltFrom` for
  that image, which includes every store the builder's postcondition admits.

## Model

| member | source | states |
|---|---|---|
| JsStrings.Split | backend/worker.js:351 | `split("/")` gives at least one part, and no part contains the separator |
| JsStrings.Join | src/components/Breadcrumb.tsx:18 | `join("/")`; characterised by `JoinSplit`, `SplitJoin` and `JoinAppend` below |
| JsStrings.StartsWith | src/components/DirectoryTree.tsx:25 | `startsWith`: the prefix is no longer than the string and equals its first characters |
| JsStrings.AtOrBelow | src/components/DirectoryTree.tsx:25 | the string is the path or starts with the path and `/`; characterised by `PrefixBySegments` |
| JsStrings.SplitConcat | backend/worker.js:351 | splitting `a + "/" + b` gives the parts of `a` followed by the parts of `b` |
| JsStrings.JoinSplit | src/components/Breadcrumb.tsx:18 | joining the parts of a split with `/` gives back the string |
| JsStrings.SplitJoin | src/components/Breadcrumb.tsx:18 | splitting a join of separator-free parts gives back the parts |
| JsStrings.JoinAppend | src/components/Breadcrumb.tsx:18 | joining two non-empty lists puts exactly one separator between their joins |
| JsStrings.PrefixBySegments | src/components/DirectoryTree.tsx:25 | a string is the path or lies below it exactly when the path's segments are a prefix of its segments |
| Worker.IdIsDirsThenLast | backend/worker.js:351-353 | an id's parts are its directory segments then its last segment; the last segment has no separator; the id is the joined directories, `/`, then the last segment |
| Worker.DirsOf | backend/worker.js:351-353 | all `/`-segments of the id but the last; characterised by `IdIsDirsThenLast` |
| Worker.LastSegment | backend/worker.js:351-352 | the last `/`-segment of the id; characterised by `IdIsDirsThenLast` |
| Worker.ToImage | backend/worker.js:328-334 | nothing exactly when both the id and the filename are missing (the `split` call then throws); otherwise the id is the listed id, or the filename when the id is missing; the filename is the id's last segment, or the listed filename when that segment is empty; date, size and flag are copied |
| Worker.ToImages | backend/worker.js:328-337 | nothing (the rethrown error of line 337) exactly when some entry has neither id nor filename; otherwise one image per entry, in order, each the conversion of its entry |
| Worker.FilenameIsFinalSegment | backend/worker.js:329-330 | unless the fallback applies, the derived filename has no separator and is the id itself or the text after the id's final `/` |
| Worker.FirstNamed | backend/worker.js:361 | `find` by exact name: none exactly when no listed node has the name; otherwise a listed node with that name |
| Worker.FirstNamedIsFirst | backend/worker.js:361 | the node `find` returns sits at some position of the list and no node listed before it has the name |
| Worker.Walk | backend/worker.js:389-395 | the node reached by following exact names lies at or after the start, strictly after it for a non-empty walk |
| Worker.ParseDirectoryTree | backend/worker.js:342-378 | the result is built from the input (valid store, every image's directories reached, each node holds exactly the images placed there in input order, all images together are the input as a multiset) and is in first-seen order (every node but the root lies on some image's walk, and each node's subdirectories are listed in the order the images first pass through them); no input gives the fresh root alone; it is a tree, every node but the root having exactly one parent (`SingleParent`); and the node served for the empty path holds every input image exactly once (`ServedImagesOnce`) |
| Worker.AddImage | backend/worker.js:350-375 | adding one image to a store that is built from `xs`, in first-seen order and a tree gives a store built from `xs` plus that image, still in first-seen order and still a tree, which extends the old store (old nodes keep name and path, their lists only grow at the end) |
| Worker.Descend | backend/worker.js:355-372 | consuming the directory segments keeps the store valid and its images where they were, and leaves the walk of those segments at the node returned; each old node gains at most one child, appended after its siblings, and every new node lies on that walk; a tree stays a tree |
| Worker.Enter | backend/worker.js:358-371 | one segment: the path is extended by the segment (no separator after the empty path), the store grows by at most the one missing child, and the walk of the segments so far, now one longer, ends at the node entered; a tree stays a tree |
| Worker.ChildSingleParent | backend/worker.js:362-369 | appending a fresh child under the current node keeps the store a tree: the new node's only parent is the current node |
| Worker.PushStep | backend/worker.js:374 | pushing the image onto the node the descent reached gives a store built from one more image, in first-seen order, still a tree, and extending the store before the descent |
| Worker.EmptyBuilt | backend/worker.js:343-348 | the fresh root with empty name-path `""` is a store built from no image |
| Worker.EmptySingleParent | backend/worker.js:343-348 | the fresh root alone is a tree |
| Worker.EmptyRoot | backend/worker.js:343-348 | the fresh root named `root` with path `""`, no subdirectories and no images; `EmptyBuilt` shows it is the store built from no image |
| Worker.NextPath | backend/worker.js:359 | the parent's path, `/` and the name, or the name alone when the parent's path is empty; `ChildValid` and `WalkFound` give each child this path |
| Worker.ChildStep | backend/worker.js:362-370 | appending a missing subdirectory keeps the store valid, adds no image, and the walk one segment longer reaches the new node with the accumulated path |
| Worker.ChildValid | backend/worker.js:361-370 | a new child under a node where no child has that name keeps sibling names distinct, references ordered, and paths extending their parent's |
| Worker.ImageStep | backend/worker.js:374 | pushing the image onto the node its segments reach turns a store built from `xs` into one built from `xs` plus the image |
| Worker.AllImagesPush | backend/worker.js:374 | pushing one image onto one node adds exactly that image to all images of the tree |
| Worker.GrowKeepsImages | backend/worker.js:362-371 | growing a built store by subdirectories only keeps it built from the same images |
| Worker.ChainStep | backend/worker.js:362-370 | appending a missing child at the end of the current walk keeps the growth to one new child per node and puts every new node on the longer walk |
| Worker.FirstVisitIsFirst | backend/worker.js:350 | the first visit of a node is the first input position whose image's walk passes through it |
| Worker.FirstVisitAfter | backend/worker.js:355-374 | after one more image, a node that already existed keeps its first visitor, and a node created for the image is first visited by it |
| Worker.SiblingOrder | backend/worker.js:367-369 | a child pushed after its siblings is first visited later than each of them |
| Worker.OrderStep | backend/worker.js:350-375 | the subdirectories created and the image pushed for one more image keep the store in first-seen order |
| Worker.SwappedStoreRejected | backend/worker.js:367-369 | for the ids `b/x.png` then `a/y.png`, a valid store that lists `a` before `b` under the root is not in first-seen order |
| Worker.SharedStoreRejected | backend/worker.js:361-370 | a store in which the root and the empty-named node both list the same `b` node keeps every per-node rule but is not a tree; the builder never shares a node, because it only ever appends a fresh one under the current node |
| Worker.GetDirectoryByPath | backend/worker.js:381-402 | the empty path gives the root itself; otherwise `null` when the walk of the split path misses, else the reached node's path, immediate subdirectories and immediate images |
| Worker.WalkSnoc | backend/worker.js:389-395 | walking one more segment is one more exact-name lookup from where the walk ended |
| Worker.WalkFound | backend/worker.js:361-371 | entering an existing child walks one segment further, to a node whose path extends the parent's |
| Worker.WalkPrefixNone | backend/worker.js:390-393 | once a prefix of the segments misses, the whole query misses |
| Worker.WalkSplitAt | backend/worker.js:389-395 | a walk is the walk of its first `n` segments followed by the walk of the rest |
| Worker.WalkPath | backend/worker.js:356-359 | the node a walk reaches has the path the builder's accumulator computes for those segments |
| Worker.PathFrom | backend/worker.js:356-359 | the accumulator of line 359 after the segments; characterised by `WalkPath` and `PathFromNoLeadingSlash` |
| Worker.PathOf | backend/worker.js:359 | the accumulated path from the empty start; characterised by `PathOfIsJoin` |
| Worker.WalkToRoot | backend/worker.js:343-348 | the root is reached only by the empty walk |
| Worker.PathOfIsJoin | backend/worker.js:359 | the accumulated path is the join of the segments when the first of several is non-empty |
| Worker.PathFromNoLeadingSlash | backend/worker.js:359 | no accumulated path starts with a separator |
| Worker.ListingPathIsQuery | backend/worker.js:386-401 | the path returned for a found directory equals the query exactly when the query does not start with `/` |
| Worker.PrefixesExist | backend/worker.js:351-358 | in a built tree every prefix of every image's directory segments reaches a node, and an id without `/` belongs to the root |
| Worker.PlacedCount | backend/worker.js:350-375 | a node holds an image as often as the input does when the image's segments lead to that node, and never otherwise |
| Worker.ImagePlacedOnce | backend/worker.js:350-375 | each input image sits on exactly one node, as many times as it occurs in the input, on the node with the accumulated path of its directories; the number of images in the store is the input length (for the served tree see `ServedImagesOnce`) |
| Worker.ImageDirIsIdPrefix | backend/worker.js:351-374 | for an id not starting with `/`, the image sits on the node whose path is the id without its last `/`-segment, and on the root when the id has no `/` |
| Worker.ToTree | src/components/Dashboard.tsx:34-35 | the tree value of a node has the node's name, path and images and one child per subdirectory reference |
| Worker.ToTreeChild | src/components/Dashboard.tsx:55 | the `i`-th child of a node's tree value is the tree value of its `i`-th subdirectory |
| Worker.ServedImagesOnce | backend/worker.js:157-167 | on a built tree, the JSON served for the empty path (the root object with its whole subtree) holds, as a multiset, exactly the input images, so as many images as inputs |
| Worker.ServedNodesOnce | backend/worker.js:157-167 | on a tree, the nodes the served root lists are all the store's nodes, each exactly once |
| Worker.TreeImagesNodes | backend/worker.js:157-167 | the images of a served subtree are the images of the nodes it lists, in that order |
| Worker.OccNode | backend/worker.js:362-369 | on a tree, a node occurs under any other node exactly as often as its parent does |
| Worker.PermImages | backend/worker.js:157-167 | listing the same nodes in another order lists the same images, as a multiset |
| Dashboard.FindNode | src/components/Dashboard.tsx:46-48 | no tree gives nothing; the empty target or the tree's own path gives the tree; any node found has the target as its path |
| Dashboard.Search | src/components/Dashboard.tsx:51-62 | any node found has the target as its path |
| Dashboard.SearchFrom | src/components/Dashboard.tsx:55-61 | any node found by the loop over the subdirectories has the target as its path |
| Dashboard.CurrentContents | src/components/Dashboard.tsx:67-69 | the shown lists are the found node's subdirectories and images, and both empty when nothing is found |
| Dashboard.SearchDescends | src/components/Dashboard.tsx:55-59 | a result other than the node itself comes from a subdirectory whose path is the target or a `/`-prefix of it |
| Dashboard.SearchFromDescends | src/components/Dashboard.tsx:55-59 | the loop's result comes from a subdirectory at or above the target from position `i` on |
| Dashboard.CoverIffNamed | src/components/Dashboard.tsx:56 | below the node reached by the first `d` segments, the pruning test admits a child exactly when its name is segment `d` |
| Dashboard.SearchFromFollows | src/components/Dashboard.tsx:55-61 | on a built tree the loop of `search` follows the worker's exact-name `find` |
| Dashboard.PathIsTarget | src/components/Dashboard.tsx:52 | for a target not starting with a separator, the path of its first `d` segments equals the target exactly when all segments are taken, which is when the `node.path === targetPath` test succeeds |
| Dashboard.SearchFollowsWalk | src/components/Dashboard.tsx:51-62 | on a built tree `search` finds exactly the node the worker's walk of the remaining segments reaches |
| Dashboard.ClientMatchesServer | src/components/Dashboard.tsx:46-65 | for a non-empty target not starting with `/`, `findNode` on the served tree finds exactly the node `getDirectoryByPath` resolves, and nothing when that gives `null` |
| Dashboard.ContentsMatchServer | src/components/Dashboard.tsx:67-69 | for such a target the shown lists are the worker's subdirectories and images, and empty when the worker reports `null` |
| Dashboard.WalkSlashFree | backend/worker.js:361 | a walk that succeeds follows names only, so its segments contain no separator |
| Dashboard.PruneComplete | src/components/Dashboard.tsx:51-64 | for a node reached by a walk whose first segment is non-empty, `findNode` on that node's path finds the node |
| Dashboard.ToTreeNoLeadingSlash | backend/worker.js:359 | no path in the served tree starts with a separator |
| Dashboard.SearchNoLeadingSlash | src/components/Dashboard.tsx:51-62 | `search` for a target starting with `/` finds nothing in such a tree |
| Dashboard.ClientMissesLeadingSlash | src/components/Dashboard.tsx:46-65 | `findNode` on the served tree finds nothing for a non-empty target starting with `/`, whatever the worker resolves |
| Dashboard.SlashStoreBuilt | backend/worker.js:342-378 | the store with root, an empty-named directory and `a` below it, holding the image `/a/x.png`, satisfies both halves of the builder's postcondition for that image, `BuiltFrom` and `FirstSeenOrder`, and the segments `""`, `a` reach its last node |
| Dashboard.OneImageOrdered | backend/worker.js:355-372 | a store for a single image whose directory walk passes through every node, and in which no node lists more than one subdirectory, is in first-seen order |
| Dashboard.SlashStoreOrdered | backend/worker.js:355-372 | the example store is in first-seen order for its single image `/a/x.png` |
| Dashboard.LeadingSlashDisagreement | backend/worker.js:359 | on that store, which satisfies `BuiltFrom` and `FirstSeenOrder` for `/a/x.png`, the worker resolves `/a` to the node whose path is `a`, while `findNode` finds neither `/a` nor `a` |
| Dashboard.LeadingSlashLost | backend/worker.js:359 | for every store the builder's postcondition admits for the single id `/a/x.png`, the worker resolves `/a` to a node whose path is `a`, and `findNode` finds nothing for `/a` |
| DirectoryTree.IsInPath | src/components/DirectoryTree.tsx:25 | the current path is the node's path or lies below it; characterised by `IsInPathBySegments` and `IsInPathAtSeparator` |
| DirectoryTree.IsActive | src/components/DirectoryTree.tsx:28 | the current path is the node's path; `ActiveIsInPath` relates it to `IsInPath` |
| DirectoryTree.HasSubdirs | src/components/DirectoryTree.tsx:29 | the node has at least one subdirectory; used by the contracts of `HandleClick` and `Children` |
| DirectoryTree.RootActive | src/components/DirectoryTree.tsx:123 | the ROOT entry is highlighted exactly when the current path is empty; `EmptyPathInPath` shows why it is not rendered through `IsInPath` |
| DirectoryTree.IsInPathBySegments | src/components/DirectoryTree.tsx:25 | a node is on the current path exactly when its path's segments are a prefix of the current path's segments |
| DirectoryTree.IsInPathAtSeparator | src/components/DirectoryTree.tsx:25 | when the paths differ, the node's path is followed by a separator in the current path |
| DirectoryTree.NotInPathBySubstring | src/components/DirectoryTree.tsx:25 | `ab` is not on the path `abc/x`, while `abc` is |
| DirectoryTree.EmptyPathInPath | src/components/DirectoryTree.tsx:25 | a node with the empty path is on the current path only for the empty path or one starting with `/`, which is why the root is rendered on its own (line 123) |
| DirectoryTree.ActiveIsInPath | src/components/DirectoryTree.tsx:25-28 | the active node is on the path, and a node on the path no longer than the current path is active |
| DirectoryTree.InsertByName | src/components/DirectoryTree.tsx:79 | insertion adds exactly the one element |
| DirectoryTree.SortByName | src/components/DirectoryTree.tsx:79 | the sorted copy is a permutation of the list |
| DirectoryTree.InsertOrdered | src/components/DirectoryTree.tsx:79 | for a comparator that orders every pair one way or the other, inserting into a list ordered pair by pair keeps it ordered, and the head is the inserted element or the old head |
| DirectoryTree.SortOrdered | src/components/DirectoryTree.tsx:79 | for a comparator that orders every pair one way or the other, the sorted copy is ordered pair by pair |
| DirectoryTree.DirectoryItem.constructor | src/components/DirectoryTree.tsx:25-26 | the flag starts as `isInPath` |
| DirectoryTree.DirectoryItem.Rerender | src/components/DirectoryTree.tsx:26 | a new current path keeps the flag |
| DirectoryTree.DirectoryItem.HandleClick | src/components/DirectoryTree.tsx:31-36 | reports the node's path; a node with subdirectories ends expanded; one without keeps its flag |
| DirectoryTree.DirectoryItem.HandleToggle | src/components/DirectoryTree.tsx:38-41 | the flag is negated |
| DirectoryTree.DirectoryItem.Children | src/components/DirectoryTree.tsx:77-79 | no children unless expanded with subdirectories; then a permutation of the subdirectories |
| DirectoryTree.TopLevel | src/components/DirectoryTree.tsx:139-140 | no entries without a tree or without subdirectories; otherwise a permutation of the root's subdirectories |
| Breadcrumb.NonEmpty | src/components/Breadcrumb.tsx:11 | `filter(Boolean)` keeps exactly the non-empty parts, each as often as it occurs (`NonEmptyCount`), in their order (`NonEmptyConcat`, `NonEmptySingle`) |
| Breadcrumb.Segments | src/components/Breadcrumb.tsx:9-12 | the empty path has no segments; no segment is empty or contains `/`; `SegmentsCount`, `SegmentsConcat` and `SegmentsSingle` fix which segments and in what order |
| Breadcrumb.NonEmptyCount | src/components/Breadcrumb.tsx:11 | the filtered parts are the parts with every empty one removed, each other one kept as often as it occurs |
| Breadcrumb.NonEmptyConcat | src/components/Breadcrumb.tsx:11 | filtering a concatenation gives the filtered halves in order |
| Breadcrumb.NonEmptySingle | src/components/Breadcrumb.tsx:11 | one non-empty part is kept and one empty part is dropped |
| Breadcrumb.SegmentsCount | src/components/Breadcrumb.tsx:9-12 | the segments are the `/`-segments of the path with every empty one removed, each other one kept as often as it occurs |
| Breadcrumb.SegmentsConcat | src/components/Breadcrumb.tsx:9-12 | the segments of `a + "/" + b` are the segments of `a` followed by those of `b` |
| Breadcrumb.SegmentsSingle | src/components/Breadcrumb.tsx:9-12 | a path without `/` is its own only segment, unless it is empty |
| Breadcrumb.SliceTo | src/components/Breadcrumb.tsx:18 | `slice(0, end)` takes the first `end` elements, counts a negative end from the back, and stops at the length |
| Breadcrumb.Navigate | src/components/Breadcrumb.tsx:14-21 | `handleNavigate`; characterised by `NavigateRoot`, `NavigatePrefix` and `NavigateStep` |
| Breadcrumb.Crumbs | src/components/Breadcrumb.tsx:36-49 | one button per segment, showing the segment and navigating to `handleNavigate` of its index |
| Breadcrumb.RootCurrent | src/components/Breadcrumb.tsx:30 | the ROOT button is highlighted exactly when there are no segments; `OnlyLastCurrent` relates it to the buttons |
| Breadcrumb.NonEmptyKeeps | src/components/Breadcrumb.tsx:11 | the filter changes nothing on parts without empty ones |
| Breadcrumb.NavigateRoot | src/components/Breadcrumb.tsx:15-16 | ROOT navigates to `""` |
| Breadcrumb.NavigatePrefix | src/components/Breadcrumb.tsx:18 | button `i` navigates to the first `i + 1` segments joined |
| Breadcrumb.NavigateStep | src/components/Breadcrumb.tsx:18 | button `i + 1` navigates to button `i`'s path, `/`, then segment `i + 1` |
| Breadcrumb.CrumbAboveJoined | src/components/Breadcrumb.tsx:18 | each button's target is an ancestor-or-self of the joined segments |
| Breadcrumb.NoEmptySegments | src/components/Breadcrumb.tsx:11-18 | for a path without empty segments, the segments are its split, the last button rebuilds the path, and every target is an ancestor-or-self of the path |
| Breadcrumb.EmptySegmentCollapses | src/components/Breadcrumb.tsx:11-18 | `a//b` gives the segments `a`, `b`; its last button leads to `a/b`, which is not on the path |
| Breadcrumb.DoubledSlashSegments | src/components/Breadcrumb.tsx:9-12 | the empty segment between the two separators of `a//b` is dropped, leaving `a` then `b` |
| Breadcrumb.OnlyLastCurrent | src/components/Breadcrumb.tsx:43-45 | exactly the last button is highlighted, and the ROOT button (line 30) when there are no segments |
| UploadModal.TrimStart | src/components/UploadModal.tsx:94 | drops exactly the leading white space: a suffix, all removed characters white space, not starting with white space |
| UploadModal.TrimEnd | src/components/UploadModal.tsx:94 | drops exactly the trailing white space: a prefix, all removed characters white space, not ending with white space |
| UploadModal.Trim | src/components/UploadModal.tsx:94 | `trim`: both ends stripped; characterised by `TrimStart`, `TrimEnd` and `TrimFixed` |
| UploadModal.TrimFixed | src/components/UploadModal.tsx:94 | trimming is idempotent, and leaves a string unchanged exactly when it neither starts nor ends with white space |
| UploadModal.ImageId | src/components/UploadModal.tsx:94-95 | the trimmed path, `/` and the file name, or the file name alone; characterised by `ImageIdSegments` and `UploadLandsInBase` |
| UploadModal.PreviewId | src/components/UploadModal.tsx:203 | the untrimmed path, `/` and the file name, or the file name alone; `PreviewMatchesIff` compares it with `ImageId` |
| UploadModal.ImageIdSegments | src/components/UploadModal.tsx:94-95 | the composed id's last segment is the file name and its directory segments are those of the trimmed path, none when that is empty |
| UploadModal.UploadLandsInBase | src/components/UploadModal.tsx:94-95 | once listed, the uploaded image sits on the node whose path is the trimmed path (no empty segments); the worker resolves that path to it and `findNode` finds it |
| UploadModal.PreviewMatchesIff | src/components/UploadModal.tsx:203 | the "Final ID" preview equals the uploaded id exactly when trimming leaves the typed path unchanged |
| UploadModal.UploadDialog.constructor | src/components/UploadModal.tsx:20-27 | mounting starts with no file, no error, not uploading; the path is seeded from `currentPath` when mounted open |
| UploadModal.UploadDialog.SetProps | src/components/UploadModal.tsx:20-27 | when open and a prop changed, the file, error and uploading flag are cleared and the path is seeded; otherwise the state stays |
| UploadModal.UploadDialog.EditPath | src/components/UploadModal.tsx:193 | the typed value becomes the path and nothing else changes |
| UploadModal.UploadDialog.HandleFileChange | src/components/UploadModal.tsx:54-60 | a picked file is taken and clears the error; no file changes nothing |
| UploadModal.UploadDialog.HandleDrop | src/components/UploadModal.tsx:62-74 | the highlight ends; an `image/` file is taken and clears the error; another type sets the error and keeps the chosen file |
| UploadModal.UploadDialog.SetDragOver | src/components/UploadModal.tsx:76-84 | sets the highlight and nothing else |
| UploadModal.UploadDialog.UploadEnabled | src/components/UploadModal.tsx:230 | the upload button is enabled exactly when a file is chosen and no upload runs |
| UploadModal.UploadDialog.BeginUpload | src/components/UploadModal.tsx:86-97 | without a file nothing happens; otherwise uploading with no error, sending the file under the composed id |
| UploadModal.UploadDialog.FinishUpload | src/components/UploadModal.tsx:97-109 | success calls upload-complete then close; a failure shows its error or "Upload failed"; an exception shows the retry message; uploading ends false in every case |
| UploadModal.UploadDialog.KeyDown | src/components/UploadModal.tsx:30-38 | Escape asks to close exactly when open and not uploading |
| UploadModal.UploadDialog.OverlayClick | src/components/UploadModal.tsx:48-52 | a click on the backdrop asks to close exactly when open and not uploading |
| UploadModal.UploadDialog.CloseButton | src/components/UploadModal.tsx:128-129 | the close button and the Cancel button (lines 218-219) ask to close exactly when open and not uploading |
| UploadModal.UploadBlocksClosing | src/components/UploadModal.tsx:86-110 | after `handleUpload` starts with a file, no path edit, file choice, drop or drag lets Escape, the backdrop or the close buttons ask to close; success alone calls upload-complete then close; once the request settles the close button works again on an open dialog |

## Left out

- HTTP routing, CORS, authentication and the HTML and proxy routes of the worker: request glue
  around the modelled functions.
- The Cloudflare Images API calls (listing, upload, delete) and `uploadImage`: foreign network
  calls. The listing enters as the input sequence and the upload result as the `UploadOutcome`
  parameter of `FinishUpload`.
- The `/api/organize` fetch of the dashboard: asynchronous I/O from an endpoint not in the worker
  shown. The dashboard's tree is taken to be the built root as a value (`ToTree(h, 0)`).
- `localeCompare` ordering: locale-dependent. The sort is an insertion sort under any
  comparator, proved to be a permutation and, for a comparator that orders every pair, ordered
  pair by pair. Stability is not proved.
- `formatFileSize`, `formatUploadDate` and the image URL builders: floating point, dates and
  constant concatenation, outside the namespace.
- DOM events, `preventDefault`, `stopPropagation`, listener registration, body scroll locking,
  the file input click and the rendering of icons and counts.
- React's scheduling: each state setter takes effect at once, and an effect runs as part of the
  re-render that triggers it (`SetProps`).
- Dashboard.PruneComplete: stated only for nodes reached by a walk whose first segment is
  non-empty. For ids starting with `/` pruning does lose the node (`LeadingSlashDisagreement`).
- Worker.ListingPathIsQuery: the returned path equals the query only for queries not starting
  with `/`, because of the truthiness test on line 359. This is weaker than "the returned path
  equals the query".
- Worker.GetDirectoryByPath: the returned `subdirs` are node references into the store. Their
  serialised form is what `ToTree` gives.
