# B-tree namespace of simple_file_system, in Dafny

This project models the namespace engine of `filesystem.c`: every directory
keeps its entries (text files and subdirectories) in a B-tree of minimum
degree `BTREE_ORDER`, ordered by name with `strcmp`. The model covers node
splitting and insertion, ordered search, the leaf-only deletion (a name held
by an internal node is refused, nothing is ever merged or borrowed), the
indented listing walk, and the file-system operations built on top: creating
files and directories, deleting them, the root directory, `cd` and `ls`.

Layout, one module per file:

- `names.dfy` (`Names`): `strcmp` on names as a sign (`Compare`) and the strict
  order `Less` it induces.
- `nodes.dfy` (`Nodes`): entries, directories, trees and nodes; the in-order
  content of a subtree (`Content`) and the B-tree shape (`Shaped`: at most
  2T-1 keys per node, k+1 children under an internal node with k >= 1 keys,
  all leaves at one depth).
- `ordering.dfy` (`Ordering`): the reference operations every tree operation
  is specified against (`Lookup`, `SortedInsert`, `Without`) and the
  search-tree invariant `WF` (shaped, in-order content strictly increasing).
- `search.dfy` (`Search`), `insert.dfy` (`Insert`), `delete.dfy` (`Delete`),
  `traverse.dfy` (`Traverse`): the tree operations.
- `filesystem.dfy` (`FileSystem`): the file-system layer.

The C code mutates nodes in place; the model returns new values. The minimum
degree comes from a header that is not part of this model, so `T` is a
constant only known to be at least 2, and every result holds for all such
values. Console messages are folded into results: the deletions return a
`Report` (the last message printed) and whether the entry was actually
unlinked, the listing returns one `Line` (name, directory mark, depth) per
printed row.

Two behaviours of the code deserve a note. First, a name held by an internal
node cannot be deleted: `btree_delete_node` refuses it, yet `delete_txt_file`
and `delete_directory` never report that outcome and print success (see
Findings); the corrected deletions report it as `Unsupported`. Second,
`btree_delete` tests for an empty internal root after every call, successful
or not; `Delete.RootNeverCollapses` shows that on a shaped tree the branch
never runs.

## Model

| member | source | states |
|---|---|---|
| Names.Compare | filesystem.c:9-11 | the comparison is -1, 0 or 1, and 0 exactly for equal names |
| Names.CompareFlip | filesystem.c:9-11 | swapping the names negates the comparison, so `strcmp(a, b) > 0` and `strcmp(b, a) < 0` are the same test |
| Names.LessTransitive | filesystem.c:9-11 | the order on names is transitive |
| Names.LessTotal | filesystem.c:9-11 | of two distinct names exactly one sorts first; no name sorts before itself |
| Search.FindKey | filesystem.c:76-81 | the scan stops at or before the end, every key it passed sorts before the name, the key it stops at does not |
| Search.FindKeyLeast | filesystem.c:76-81 | on sorted keys no key from the stop position on sorts before the name, so the stop is the first key at least the name |
| Search.ScanPastIsFindKey | filesystem.c:63-66 | the search's scan (name greater than key) stops where the deletion's scan (key less than name) stops |
| Search.ScanPast | filesystem.c:63-66 | the search's scan stops at or before the end; the name compares greater than every key it passed and not greater than the key it stops at |
| Search.SearchNode | filesystem.c:63-74 | an entry returned by the subtree search carries the searched name |
| Search.SearchNodeFinds | filesystem.c:63-74 | on a well-formed subtree the search returns exactly the reference lookup over the in-order content |
| Search.SearchTree | filesystem.c:137-140 | an entry returned by the tree search carries the searched name |
| Search.SearchTreeFinds | filesystem.c:137-140 | the tree search finds an entry exactly when the content holds that name, and then returns that entry |
| Insert.SplitChild | filesystem.c:13-39 | the parent gains one key and one child, keys and children outside the split slot are unchanged, the two halves hold T-1 keys each, and lower half + median + upper half is the old child's keys (children likewise) |
| Insert.SplitChildShaped | filesystem.c:13-39 | splitting a full child of a non-full shaped node gives a shaped node of the same height |
| Insert.SplitChildContent | filesystem.c:13-39 | splitting does not change the in-order content |
| Insert.InsertPos | filesystem.c:42-53 | the backward scan stops just after the last key that does not sort after the name; every key from the stop sorts after it |
| Insert.InsertNonFull | filesystem.c:41-61 | inserting into a shaped non-full node keeps it shaped, of the same height and kind |
| Insert.InsertLeafContent | filesystem.c:42-49 | in a leaf, the new entry lands at its sorted place and the keys stay sorted |
| Insert.SplitChoice | filesystem.c:54-58 | after splitting the full child, the child chosen by comparing with the median is non-full and its range holds the new name |
| Insert.InsertNonFullContent | filesystem.c:41-61 | on a well-formed node with a fresh name the content becomes the reference sorted insertion and the node stays well-formed |
| Insert.CreateTree | filesystem.c:117-121 | a new tree is well-formed, empty, of height 0 |
| Insert.InsertTree | filesystem.c:123-135 | the tree stays shaped, and its height grows by one exactly when the root was full |
| Insert.InsertTreeContent | filesystem.c:123-135 | with a fresh name the tree stays well-formed, its content becomes the sorted insertion and grows by one |
| Insert.SearchAfterInsert | filesystem.c:123-140 | after insertion the new name finds the new entry and every other name finds what it found before |
| Delete.RemoveFromLeaf | filesystem.c:83-87 | one key fewer, and putting the removed key back at its index gives the old keys; children and kind unchanged |
| Delete.DeleteNode | filesystem.c:89-104 | when nothing is removed the node is returned unchanged; kind and child count are kept |
| Delete.DeleteNodeShaped | filesystem.c:89-104 | deletion keeps shape and height and leaves every internal node's keys as they were |
| Delete.DeleteNodeRemoves | filesystem.c:89-104 | on a well-formed subtree a key is removed exactly when a leaf holds the name, and then the content loses exactly that entry |
| Delete.OnlyChildHolding | filesystem.c:89-103 | a name inside child j's subtree is not a key of the node and the scan descends exactly into child j |
| Delete.KeyNotBelow | filesystem.c:92-99 | a name that is a key of an internal node is in none of its subtrees, so refusing it leaves no copy in a leaf |
| Delete.HeldOnce | filesystem.c:89-104 | in a well-formed subtree no name is held both by a leaf and by an internal node |
| Delete.DeleteTree | filesystem.c:142-152 | when btree_delete_node removes nothing (result 0) the tree is returned as it was |
| Delete.RootNeverCollapses | filesystem.c:142-152 | on a shaped tree the root-replacement branch of btree_delete never runs |
| Delete.DeleteTreeFromLeaf | filesystem.c:142-152 | a name held by a leaf is removed: result 1, content loses exactly that entry, one entry fewer, internal nodes unchanged, tree well-formed, name no longer found |
| Delete.DeleteTreeRefuses | filesystem.c:142-152 | a name held by an internal node or absent gives result 0 and the tree unchanged |
| Delete.LeafInsertThenDelete | filesystem.c:89-95 | deleting from a leaf the name just inserted into it gives back the original leaf |
| Traverse.TraverseNode | filesystem.c:106-115 | the walk of a subtree prints exactly as many lines as the subtree holds entries |
| Traverse.TraverseWalk | filesystem.c:108-114 | the interleaved children and keys of a node print as many lines as their in-order content holds |
| Traverse.TraverseTree | filesystem.c:154-157 | the listing of a tree shows its content entry by entry: same names, same kinds, same order |
| Traverse.TraverseShowsContent | filesystem.c:106-115 | the walk prints one line per entry of the in-order content, same name, same file/directory mark, same order |
| Traverse.TraverseDepths | filesystem.c:106-115 | on a shaped subtree every line's depth lies between the starting depth and the starting depth plus the height |
| Traverse.TopLines | filesystem.c:106-115 | in the walk of a shaped subtree from level d, the lines at level d are exactly the subtree root's keys, in order: a key is indented by its node's level |
| Traverse.LeafLines | filesystem.c:106-115 | in the walk of a shaped subtree from level d, the lines at level d + height are exactly the keys of its leaves, leaf after leaf |
| Traverse.ListingSorted | filesystem.c:154-157 | on a well-formed tree the listing shows the content with names strictly increasing and no line deeper than the leaves |
| FileSystem.CreateTxtFile | filesystem.c:159-170 | a text-file entry with the given name and content whose size is the content's length |
| FileSystem.CreateDirectory | filesystem.c:172-181 | a directory entry with the given name owning a well-formed empty namespace |
| FileSystem.GetRootDirectory | filesystem.c:222-226 | the root directory owns a well-formed empty namespace |
| FileSystem.HoldsFile | filesystem.c:197-198 | in a well-formed namespace the guard passes exactly when the namespace holds a text file of that name; when it fails the search found nothing or a directory |
| FileSystem.HoldsEmptyDir | filesystem.c:208-216 | in a well-formed namespace the guards pass exactly when the namespace holds a directory of that name with no key in its root; when they fail the search found nothing, a text file or a directory with keys |
| FileSystem.DeleteTxtFile | filesystem.c:196-205 | not-found exactly when the name does not find a text file, and then nothing is unlinked; otherwise success; whenever nothing is unlinked the tree is returned as it was |
| FileSystem.DeleteDirectory | filesystem.c:207-220 | not-found exactly when the name finds nothing or a text file; not-empty exactly when it finds a directory with keys in its root; success exactly when it finds a directory with none; every outcome but success unlinks nothing, and whenever nothing is unlinked the tree is returned as it was |
| FileSystem.EmptyIffNoKeys | filesystem.c:212-215 | a shaped namespace has no key in its root exactly when it has no entries |
| FileSystem.HoldsFileMeans | filesystem.c:197-198 | on a well-formed namespace the search finds a text file exactly when the content holds a file of that name |
| FileSystem.HoldsEmptyDirMeans | filesystem.c:208-216 | on a well-formed namespace whose directories are shaped, the emptiness gate passes exactly when the content holds an empty directory of that name |
| FileSystem.DeleteTxtFileAsWritten | filesystem.c:196-205 | for a held file, success is always reported but the file is unlinked only when a leaf holds it; then the tree stays well-formed, its content loses exactly that entry and the name is no longer found; otherwise the tree is unchanged and still finds it |
| FileSystem.DeleteDirectoryAsWritten | filesystem.c:207-220 | the same for an empty directory |
| FileSystem.DeleteTxtFileKeepsEntry | filesystem.c:196-205 | on a concrete well-formed tree with "b" in the root, deleting file "b" reports success while "b" stays in the tree |
| FileSystem.DeleteDirectoryKeepsEntry | filesystem.c:207-220 | the same for an empty directory "b" |
| FileSystem.DeleteTxtFileFixed | filesystem.c:196-205 | corrected: success exactly when the entry was unlinked; not-found exactly when no text file has the name; any other outcome leaves the tree unchanged |
| FileSystem.DeleteDirectoryFixed | filesystem.c:207-220 | corrected: success exactly when unlinked; success or unsupported exactly when the name finds an empty directory; otherwise unchanged |
| FileSystem.DeleteTxtFileFixedOutcome | filesystem.c:196-205 | corrected deletion of a held file: success exactly when a leaf holds it (then exactly that entry is gone and the name is no longer found), unsupported exactly when an internal node holds it (then nothing changed) |
| FileSystem.DeleteDirectoryFixedOutcome | filesystem.c:207-220 | the same for an empty directory |
| FileSystem.ChangeDirectory | filesystem.c:228-243 | "." and ".." keep the cursor; a moved cursor is the directory the search found under that name |
| FileSystem.ChangeDirectoryEnters | filesystem.c:228-243 | in a well-formed directory the cursor moves into the directory of that name whenever the content holds one (name not "." or ".."), and stays when none is there |
| FileSystem.ListDirectory | filesystem.c:245-248 | the listing shows the directory's content entry by entry |

## Left out

- `main_fs.c`, the interactive shell that parses commands and calls these operations, is not part of this model; it is what checks for duplicate names before inserting.
- Memory management (`calloc`, `strdup`, `free`, `free_tree_node`) is not modelled: values replace pointers. `free_tree_node` on a directory prints its listing instead of freeing it; the deletion path only reaches it for empty directories, where that prints nothing.
- Printing: messages become the `Report` value and the removal flag; the text of the listing (four spaces per depth level, a "/" after directory names, a newline) is the `Line` record rather than characters.
- NULL guards on trees, entries and the cursor are left out: Dafny values are never null.
- Fixed-capacity key and child arrays are sequences; `Shaped` bounds their lengths by the same capacities.
- Aliasing: in C the cursor of `change_directory` points into the parent's entry, so later changes through the cursor are visible from the parent. The model returns the directory value and does not model that sharing.
- C strings: names are sequences of characters compared by code point; the terminating NUL and byte encodings are not modelled.
- `btree_create_node` is the `Node` constructor itself.
- Insert.InsertTreeContent: stated only for a name not already in the tree; with a duplicate the source inserts a second entry of the same name, which the model's sorted-content invariant does not describe.
- The minimum-fill rule of B-trees (at least T-1 keys outside the root) is not part of `Shaped`: leaf deletion can break it, and nothing in the code relies on it.

## Findings

| source | as written | input that shows it | evidently intended | confidence | as-written member | corrected member |
|---|---|---|---|---|---|---|
| filesystem.c:196-205 | `delete_txt_file` ignores the result of `btree_delete`: when an internal node holds the name, `btree_delete_node` refuses and unlinks nothing, yet success is printed and the entry is freed while the tree still points to it | minimum degree 2: create files a, b, c, d (the fourth insertion splits the root, leaving "b" in it), then delete "b" | report success only when the entry was unlinked; otherwise report the refusal and leave the entry alive | high; not executed | FileSystem.DeleteTxtFileKeepsEntry | FileSystem.DeleteTxtFileFixed |
| filesystem.c:207-220 | `delete_directory` has the same defect for an empty directory held by an internal node | minimum degree 2: create a, c, d as files and "b" as an empty directory in the order a, b, c, d, then delete directory "b" | as above | high; not executed | FileSystem.DeleteDirectoryKeepsEntry | FileSystem.DeleteDirectoryFixed |
