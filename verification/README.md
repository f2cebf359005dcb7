# SQLBUS: a verified model

SQLBUS forwards SQL statements through a Redis list. A client puts JSON requests into the list; the
server pops them, runs their statements through a database driver, and answers synchronous requests with
a JSON result table. This project models the parts of SQLBUS and of the two libraries compiled into it
whose behaviour is hardest to see from the code, and proves what they are for.

- `Json`, `KeySort`, `JsonCompare`, `JsonList`, `ItemList`: cJSON values, the trees they stand for, the
  linked-list merge sort, the child lists relinked in place, and the two ways to compare values.
- `MergePatch`, `PatchRfc`, `PatchTree`, `PatchDiff`, `PatchNeed`, `JsonPatch`: merge patches (RFC 7396),
  JSON pointers (RFC 6901) and JSON patches (RFC 6902), generated and applied; what the RFC says of a patch
  stands apart from what the code does with it, and the two are compared.
- `JsonText`, `ParseBuffer`, `PrintBuffer`: JSON text as functions, the cursor parser with its output block,
  and the printer with its growing or fixed buffer. `JsonStrings` and `JsonGrammar` hold string literals and
  the grammar of RFC 8259 apart from them, and compare the two; `JsonRoundTrip` is the round trip, and
  `JsonReading` what these proofs share.
- `Resp`, `RespEncoding`, `Reader`, `Command`, `Decimal`: the resumable reply reader of hiredis with its
  nine-slot task stack, the encoding it inverts, and the formatting of commands.
- `Async`, `AsyncRuns`, `AsyncContext`: the asynchronous context as a machine over events, which commands its
  runs accept and how they end, and the context as a class with a linked callback list and user functions
  that call back into it.
- `Dict`: the chained hash table as a finite map, with rehashing and iteration under deletion.
- `Sds`: quoting of byte strings and splitting of argument lines.
- `Server`, `Message`, `Oracle`: the service loop, the messages between client and server, and the flat
  result block of the Oracle driver with its cursors.
- `Basics`: values that may be missing, and C strings.

Code that works step by step is modelled by methods on arrays, fields and linked nodes; each is proved
equal to a function, and the theorems are about the functions. Bytes are modelled as characters. The
network, the database and the user functions are parameters: arbitrary chunks, outcomes and scripts.
`dafny verify dfyconfig.toml` checks everything.

Where the code differs from its documentation or from a standard, the model follows the code:

- Adding a value below a scalar succeeds without effect, where section 4.1 of RFC 6902 asks for an error
  (`third/cJSON/cJSON_Utils.c:947-990`), and tokens that section 4 of RFC 6901 forbids are read as array
  indices: the empty one as 0, "1:" as 20, and numbers beyond a size_t modulo its range
  (`third/cJSON/cJSON_Utils.c:254-279`). `PatchTree.Conforms` says exactly when an operation is that of the
  RFC, and `PatchTree.AddBelowScalar`, `RemoveEmptyToken` and `RemoveColonToken` give inputs where it is not.
- A path that is no JSON pointer is an error for section 3 of RFC 6901, but text that does not start with a
  slash is skipped (`third/cJSON/cJSON_Utils.c:281-326`), so that "x/a" names the member a of the root.
  `JsonPatch.PatchConforms` covers this in its condition, and `JsonPatch.NoPointerIsObeyed` is the input.
- A replacement without a value removes the old one before it fails
  (`third/cJSON/cJSON_Utils.c:862-925`, `JsonPatch.FailureKeeps`, `JsonPatch.ReplaceWithoutValue`).
- A generated merge patch cannot add a null member, and between equal objects there is no patch, which
  `merge_patch` answers by deleting the target (`third/cJSON/cJSON_Utils.c:1288-1307`). The generator sorts
  without case and compares with it; where the two orders agree, `MergePatch.DiffThenMerge` says exactly
  when generating and merging works, and `NullMemberIsLost` and `EqualObjectsAreLost` give inputs where it
  does not. `MixedCaseIsLost` is an input where they disagree and a member is lost.
- `sort_list` leaves the `prev` of its new first node as it was (`third/cJSON/cJSON_Utils.c:522-534`);
  `ItemList.SortThenDetachFirst` says when a later detach breaks the list, and `SortedPairBreaks` is the
  smallest one that breaks.
- `cJSON_PrintPreallocated` needs two bytes more than the text, not the documented five
  (`third/cJSON/README.md:270`).
- The reader accepts eight levels of arrays although its message speaks of depth 7
  (`third/hiredis/read.c:309-314`).
- Looking at a connection that is still in progress records an error number, so the next read or write
  gives up even when the connection is established by then (`third/hiredis/async.c:495-503`,
  `Async.ErrorGivesUp`, `Async.SlowConnectIsGivenUp`).
- A response member that the client means to ignore when it is missing is in fact required, because a
  success with information does not pass the final check (`client/hisqlbus.h:21`, `client/util.c:81-93`).
- A put-back that fails loses the request, and the service goes on (`src/sqlbus.c:1057-1064`).
  `Server.ConservedExactly` says that no request is lost otherwise, and `Server.PutBackCanFail` is a run in
  which one is.
- `rtrim` takes off spaces and NULs in the driver (`drivermanager/oracle/util.c:13-19`), and line ends too in
  the service (`src/util.c:59-65`). The library of the driver is linked with its own, but the service is
  linked with `-rdynamic` (`src/Makefile:32`), so that its own function is the one the driver calls there;
  the program that the driver is built with by itself calls the other. Both are modelled, and
  `Oracle.BlanksDiffer` says for which values it matters.
- The value buffer of a fetch has 4000 bytes (`drivermanager/oracle/ora.pc:708`), and `rtrim` and `ltrim` touch
  the byte behind the value: for a column of 4000 bytes, the largest VARCHAR2, that is the byte past the
  buffer. The model covers capacities below 4000.
- The error id of a response is kept in an unsigned number, so -1 arrives as 4294967295
  (`client/hisqlbus.h:74`).

## Model

| member | source | states |
|---|---|---|
| `JsonPatch.DiffThenPatch` | third/cJSON/cJSON_Utils.c:1108-1261 | sections 4.1-4.3 of RFC 6902: for any two values, the generated patches are complete JSON Patch objects whose paths are JSON pointers and that, applied in order to the first value as the RFC says, give the second (members unordered, keys up to case), including the repeated removals at one index and the appends under "-"; the code gives them status 0 and the same outcome |
| `JsonPatch.PatchCopy` | third/cJSON/cJSON_Utils.c:1005-1261 | one run of the generator and of the applier over a copy: status 0 and the target tree, by patches that lead to it under RFC 6902 too |
| `PatchDiff.DiffWorks` | third/cJSON/cJSON_Utils.c:1108-1261 | the list of edits found by walking two values turns the tree of the first into the tree of the second, edit by edit |
| `PatchDiff.DiffItemsWorks` | third/cJSON/cJSON_Utils.c:1137-1180 | arrays: from any middle point, the remaining edits turn the half-changed array into the target array |
| `PatchDiff.DiffMembersWorks` | third/cJSON/cJSON_Utils.c:1182-1255 | objects: from any position of the two sorted cursors, the remaining edits turn the half-changed fields into the target fields |
| `PatchDiff.DiffIsWritable` | third/cJSON/cJSON_Utils.c:1063-1106 | every path the generator needs can be written as a pointer string without escapes when the keys have neither ~ nor / |
| `PatchNeed.DiffIsNeeded` | third/cJSON/cJSON_Utils.c:1108-1261 | every listed edit is needed: a value is replaced only where both trees have one, and these differ and are not two arrays or two objects; a member is removed only when the second object lacks its key, and added only when the first does; elements are removed only behind the end of a shorter second array, and appended only for a longer one |
| `PatchNeed.NoEditsExactly` | third/cJSON/cJSON_Utils.c:1108-1261 | there are no edits exactly between values with the same meaning |
| `PatchTree.ReplaceIsRemoveThenAdd` | third/cJSON/cJSON_Utils.c:782-880 | replacing is removing and adding under the same token, and it works exactly when the removal does |
| `PatchRfc.ApplyUnder` | third/cJSON/cJSON_Utils.c:1137-1255 | edits moved below a token change that child as they would change it alone, and nothing else |
| `PatchTree.Conforms` | third/cJSON/cJSON_Utils.c:254-326 | for every tree, operation, path and value: the code does what RFC 6902 says, errors included, exactly unless the parent is found and takes the operation, but is a scalar or was reached under a token that is no array index; and what the RFC allows is always done |
| `JsonPatch.PatchConforms` | third/cJSON/cJSON_Utils.c:281-326 | one complete patch object with a path without escapes: status and document are those of RFC 6902 (its path a pointer of section 3 of RFC 6901, or an error), exactly unless the path is a pointer whose target only the code finds, or is no pointer, but has a slash, and the root takes the operation under the text behind the last one |
| `JsonPatch.PatchesConform` | third/cJSON/cJSON_Utils.c:1005-1032 | a sequence of complete patches that RFC 6902 allows is carried out as it says |
| `JsonPatch.NoPointerIsObeyed` | third/cJSON/cJSON_Utils.c:281-326 | removing "x/a" from {"a":null} leaves {} with status 0, where RFC 6901 has an error |
| `JsonPatch.PathTokensIs` | third/cJSON/cJSON_Utils.c:406-457 | a path is read as the tokens of the pointer it is; any other path with a slash as the one token behind the last slash |
| `PatchRfc.PointerExactly` | third/cJSON/cJSON_Utils.c:281-326 | section 3 of RFC 6901 without escapes: the tokens of a pointer are the only slash-free texts that render it, and no other string is a pointer |
| `PatchTree.DecodeIndexIs` | third/cJSON/cJSON_Utils.c:254-279 | an index token is read as section 4 of RFC 6901 has it, exactly unless it is empty, has a byte above 9 behind its first digit, or does not fit a size_t |
| `PatchTree.PossibleExactly` | third/cJSON/cJSON_Utils.c:782-990 | an operation is carried out exactly when its parent is there and takes it |
| `PatchTree.AddBelowScalar` | third/cJSON/cJSON_Utils.c:947-990 | adding "/a" to the number 1 is reported as done and changes nothing, where RFC 6902 has an error |
| `PatchTree.RemoveEmptyToken` | third/cJSON/cJSON_Utils.c:254-279 | removing "/" from an array takes its first element, where RFC 6902 has an error |
| `PatchTree.RemoveColonToken` | third/cJSON/cJSON_Utils.c:254-279 | removing "/1:" from an array of 21 elements takes the last one, where RFC 6902 has an error |
| `PatchRfc.IndexRfcOfDecimal` | third/cJSON/cJSON_Utils.c:1150-1173 | the decimal text of a position is the index token of that position |
| `PatchRfc.IndexRfcExactly` | third/cJSON/cJSON_Utils.c:254-279 | section 4 of RFC 6901: the token of a position is its decimal text and no other |
| `PatchRfc.ArrayEdits` | third/cJSON/cJSON_Utils.c:947-990 | sections 4.1 to 4.3 of RFC 6902 for the elements of an array, by position, past the end and under "-" |
| `PatchRfc.ObjectEdits` | third/cJSON/cJSON_Utils.c:947-990 | the same sections for the members of an object, by key |
| `PatchRfc.OtherEdits` | third/cJSON/cJSON_Utils.c:813-860 | below any other value everything is an error, and the whole document can be added and replaced |
| `PatchRfc.NestedEdits` | third/cJSON/cJSON_Utils.c:281-326 | a longer path edits below the element at its position, or below the member with its key |
| `JsonPatch.TokensOfRender` | third/cJSON/cJSON_Utils.c:281-326 | RFC 6901 section 3: a pointer written from plain tokens is followed token by token |
| `JsonPatch.PathTokensOfRender` | third/cJSON/cJSON_Utils.c:406-457 | splitting a written path at its last slash gives the parent tokens and the last token |
| `JsonPatch.LocateMeaning` | third/cJSON/cJSON_Utils.c:281-326 | following tokens through lists finds the node of the corresponding path in the tree, and overwriting that node changes the tree at that path only |
| `JsonPatch.ApplyAtParent` | third/cJSON/cJSON_Utils.c:934-990 | an operation is an edit of one child at the parent its path names |
| `JsonPatch.Document.GetItemFromPointer` | third/cJSON/cJSON_Utils.c:281-326 | the loop over the pointer reaches the node its tokens locate, or nothing |
| `JsonPatch.Document.DetachPath` | third/cJSON/cJSON_Utils.c:406-457 | detaching by a path without escapes is the removal as the code reads the path, and leaves the document alone when there is nothing there; `JsonPatch.PatchConforms` says when that is the removal of RFC 6902 |
| `JsonPatch.Document.AddAtPath` | third/cJSON/cJSON_Utils.c:934-990 | adding by path is the operation on the tree, with status 0; otherwise the document stays, and the status is 9 without a parent, 11 for a token that is no index, 10 past the end |
| `JsonPatch.Document.ApplyPatch` | third/cJSON/cJSON_Utils.c:782-1003 | one patch object has exactly the status and leaves exactly the document of the reference: 2 and 3 for malformed objects, 13 when there is nothing to remove, 7 when the value is missing, and otherwise the result of the operation |
| `JsonPatch.Document.CarryOut` | third/cJSON/cJSON_Utils.c:813-990 | the part of it behind the reading of path and operation |
| `JsonPatch.FailureKeeps` | third/cJSON/cJSON_Utils.c:862-925 | a patch with a path without escapes that fails leaves the document as it was, exactly unless it is a replacement without a value where there is something to remove |
| `JsonPatch.ReplaceWithoutValue` | third/cJSON/cJSON_Utils.c:862-925 | replacing "/0" of [true] without a value has status 7 and leaves [] |
| `JsonPatch.CompleteOutcome` | third/cJSON/cJSON_Utils.c:782-1003 | a complete patch, its path without escapes and empty or with a slash, succeeds exactly when its operation is possible, and does it; otherwise the document stays |
| `JsonPatch.Document.ApplyPatches` | third/cJSON/cJSON_Utils.c:1005-1032 | patches in order until one fails, with its status and the document it leaves; status 1 for anything but an array |
| `JsonPatch.CompleteOutcomes` | third/cJSON/cJSON_Utils.c:1005-1032 | complete patches all succeed exactly when each operation is possible in its turn; otherwise the document is the one that the first impossible operation found |
| `JsonPatch.PatchArray.Compose` | third/cJSON/cJSON_Utils.c:1063-1106 | one object is appended, with the members op, path with its suffix, and value if there is one |
| `JsonPatch.ReadComposed` | third/cJSON/cJSON_Utils.c:705-750 | the operation, the path and the value of a composed object are read back |
| `JsonPatch.OperationNames` | third/cJSON/cJSON_Utils.c:705-750 | the operations by their names, and the status of an element without path, operation or a known name |
| `JsonPatch.FailureStatuses` | third/cJSON/cJSON_Utils.c:782-1003 | the status of every failure on a document that is there: 13, 7, 9, 11 and 10, each exactly when |
| `JsonPatch.PatchArray.CreatePatches` | third/cJSON/cJSON_Utils.c:1108-1261 | the recursive generator appends exactly the listed edits, with paths written as pointers |
| `JsonPatch.PatchArray.CreateItemPatches` | third/cJSON/cJSON_Utils.c:1137-1180 | the three array loops: common items, removals at one index, appends |
| `JsonPatch.PatchArray.CreateRemovals` | third/cJSON/cJSON_Utils.c:1159-1172 | the loop that removes at one position |
| `JsonPatch.PatchArray.CreateAdditions` | third/cJSON/cJSON_Utils.c:1173-1177 | the loop that appends |
| `JsonPatch.PatchArray.CreateMemberPatches` | third/cJSON/cJSON_Utils.c:1182-1255 | the two-cursor loop over sorted members |
| `JsonPatch.DetachChild` | third/cJSON/cJSON_Utils.c:373-403 | detaching from an array or an object removes the item or member and keeps the rest in order |
| `JsonPatch.AddChild` | third/cJSON/cJSON_Utils.c:954-990 | adding under a token; a scalar parent takes nothing and reports no error |
| `JsonPatch.PatchesRoundTrip` | third/cJSON/cJSON_Utils.c:1063-1106 | the composed objects read back as the edits they were composed from |
| `JsonList.InsertItem` | third/cJSON/cJSON_Utils.c:668-703 | insertion at a position; refused exactly past the end |
| `JsonList.DetachItem` | third/cJSON/cJSON_Utils.c:373-403 | removal at a position; nothing past the end |
| `JsonList.SetMember` | third/cJSON/cJSON.c:1896-1926 | deleting a member by key and adding it again is one update of the map; the other members keep their order, and the new one is last, with the key as it was given |
| `JsonList.DetachMember` | third/cJSON/cJSON.c:2112-2117 | detaching by key returns the value of the key and removes it from the map |
| `ItemList.Parent.GetItem` | third/cJSON/cJSON.c:1744-1761 | the walk of a given number of links finds the child at that position or none |
| `ItemList.Parent.AddItem` | third/cJSON/cJSON.c:1845-1872 | the child list grows at its end and stays linked both ways |
| `ItemList.Parent.Detach` | third/cJSON/cJSON.c:2067-2095 | relinking the neighbours removes exactly that child, keeps the list well formed and leaves the child without links |
| `ItemList.Parent.InsertItem` | third/cJSON/cJSON.c:2137-2164 | insertion before a position, or at the end when there is no such position |
| `ItemList.Parent.InsertAt` | third/cJSON/cJSON_Utils.c:668-703 | the insertion of the utilities, refused exactly past the end |
| `ItemList.Parent.Replace` | third/cJSON/cJSON.c:2166-2199 | a child is exchanged for another node in place |
| `ItemList.DetachFirst` | third/cJSON/cJSON.c:2067-2095 | with the `prev` of the first child unreset, detaching that child leaves a list exactly when that `prev` is NULL |
| `ItemList.SortThenDetachFirst` | third/cJSON/cJSON_Utils.c:522-577 | after sort_object, detaching the first member leaves a list exactly when the name of the member that was first is below every other name |
| `ItemList.SortedPairBreaks` | third/cJSON/cJSON_Utils.c:522-577 | the members b and a, in this order, are a list that breaks |
| `KeySort.FirstStays` | third/cJSON/cJSON_Utils.c:460-568 | the first element stays first in the sorted order exactly when it is strictly before every other, repeated keys or not |
| `KeySort.SortList` | third/cJSON/cJSON_Utils.c:460-568 | the linked-list merge sort relinks its nodes into the sorted order; the `prev` of the new head is not reset |
| `KeySort.SortObject` | third/cJSON/cJSON_Utils.c:570-577 | after sorting, the first node has a NULL `prev` exactly when it was the first node before |
| `KeySort.SortHalves` | third/cJSON/cJSON_Utils.c:480-568 | both halves are sorted and merged into the merge of the two sorted sequences |
| `KeySort.MergeLists` | third/cJSON/cJSON_Utils.c:514-566 | the merge loop on two linked lists computes the merge of their node sequences |
| `KeySort.Split` | third/cJSON/cJSON_Utils.c:480-512 | the slow and the fast cursor cut the list in the middle |
| `KeySort.IsAscending` | third/cJSON/cJSON_Utils.c:466-478 | the test for a sorted list looks at every pair of neighbours |
| `KeySort.SortPermutes` | third/cJSON/cJSON_Utils.c:460-568 | sorting keeps the nodes |
| `KeySort.SortSorts` | third/cJSON/cJSON_Utils.c:460-568 | on distinct keys the result is strictly ascending |
| `KeySort.SortedIsUnique` | third/cJSON/cJSON_Utils.c:460-568 | there is only one strictly ascending order of the same nodes |
| `JsonCompare.SortKeepsFields` | third/cJSON/cJSON_Utils.c:570-577 | sorting an object changes neither its members nor its meaning |
| `JsonCompare.CompareJson` | third/cJSON/cJSON_Utils.c:579-665 | sort-and-zip comparison decides equality of the trees (members unordered, keys up to case); so it is symmetric and transitive |
| `JsonCompare.CompareByLookup` | third/cJSON/cJSON.c:2795-2918 | comparison by two-way lookup decides the same relation |
| `JsonCompare.CompareItems` | third/cJSON/cJSON_Utils.c:600-625 | arrays are equal element by element and in length |
| `JsonCompare.CompareMembers` | third/cJSON/cJSON_Utils.c:627-660 | two sorted member lists zipped together |
| `JsonCompare.EveryMemberFound` | third/cJSON/cJSON.c:2877-2911 | every member of one object has an equal one under its key in the other |
| `Json.FindIsLookup` | third/cJSON/cJSON.c:1773-1803 | the first member found by key is the value of the map at that key |
| `Json.FieldsWithout` | third/cJSON/cJSON.c:2067-2095 | taking one member out of the list takes its key out of the map |
| `Json.FieldsAppend` | third/cJSON/cJSON.c:1845-1872 | a member with a new key extends the map |
| `Json.CompareIsTransitive` | third/cJSON/cJSON_Utils.c:73-100 | the comparison of strings is transitive |
| `Json.CompareFlips` | third/cJSON/cJSON_Utils.c:73-100 | of two strings, one is below the other exactly when the other is above it |
| `Json.CompareIsEquality` | third/cJSON/cJSON_Utils.c:73-100 | the comparison gives 0 exactly for equal strings |
| `Json.CompareIsDictionary` | third/cJSON/cJSON_Utils.c:73-100 | the first byte that differs decides, and a prefix is below what it starts |
| `Json.ToLowerIs` | third/cJSON/cJSON_Utils.c:90-98 | each of the 26 capital letters becomes its own small letter, and nothing else changes |
| `MergePatch.ApplyMergePatch` | third/cJSON/cJSON_Utils.c:1288-1345 | merge_patch computes a fold over the members of the patch, for every target, missing or not, and every patch, repeated keys included; on distinct keys this is MergePatch of section 2 of RFC 7396; without a patch it returns nothing |
| `MergePatch.ValueMerges` | third/cJSON/cJSON_Utils.c:1288-1345 | on distinct keys, that fold is MergePatch of section 2 of RFC 7396 |
| `MergePatch.MergedAt` | third/cJSON/cJSON_Utils.c:1309-1342 | section 2 of RFC 7396, key by key: null removes, a missing key keeps, anything else is merged into the value that is there |
| `MergePatch.StandardExample` | third/cJSON/cJSON_Utils.c:1288-1345 | the example of section 1 of RFC 7396 |
| `MergePatch.MergeMembers` | third/cJSON/cJSON_Utils.c:1309-1342 | the loop over the patch members is that fold, and on distinct keys the merge of the fields |
| `MergePatch.MergeMember` | third/cJSON/cJSON_Utils.c:1311-1340 | one patch member: null deletes the member, anything else detaches, merges and adds it |
| `MergePatch.GenerateMergePatch` | third/cJSON/cJSON_Utils.c:1357-1433 | for all keys, the patch that the two cursors build; where the order with case and the one without agree on the keys compared, this is the difference of the trees |
| `MergePatch.DiffThenMerge` | third/cJSON/cJSON_Utils.c:1288-1433 | for all objects, generating a merge patch and merging it into a copy of the first value is the fold over the generated members; where the two orders agree on the keys compared, it gives the second value exactly when no null member of the target is new and the two are not equal objects, and between equal objects nothing at all is left |
| `MergePatch.LowerIsSameOrder` | third/cJSON/cJSON_Utils.c:1375-1395 | on lower-case keys the two orders agree |
| `MergePatch.NullFreeIsExpressible` | third/cJSON/cJSON_Utils.c:1288-1433 | every target without a null reachable through members can be expressed |
| `MergePatch.NullMemberIsLost` | third/cJSON/cJSON_Utils.c:1311-1322 | from {} to {"a":null} the patch removes instead of adding |
| `MergePatch.EqualObjectsAreLost` | third/cJSON/cJSON_Utils.c:1424-1429 | from {} to {} there is no patch |
| `MergePatch.MixedCaseIsLost` | third/cJSON/cJSON_Utils.c:1288-1433 | from {"a":1,"B":1} to {"B":1} a merge patch could lead, but merging the generated one gives {} |
| `MergePatch.MixedCasePatch` | third/cJSON/cJSON_Utils.c:1375-1421 | the patch generated there sets B and then removes a and B |
| `MergePatch.WalkMembers` | third/cJSON/cJSON_Utils.c:1375-1425 | the two-cursor loop appends the members of the reference, and where the two orders agree those of the difference of the fields |
| `MergePatch.MergeOfDifference` | third/cJSON/cJSON_Utils.c:1288-1433 | where there is a patch, merging it gives the target exactly when no null member of the target is new |
| `MergePatch.NoPatchIffEqual` | third/cJSON/cJSON_Utils.c:1357-1433 | no patch is produced exactly for two equal objects |
| `MergePatch.MergeIntoNothing` | third/cJSON/cJSON_Utils.c:1288-1307 | without an object to merge into, a patch yields itself exactly when it holds no null member |
| `JsonRoundTrip.PrintThenParse` | third/cJSON/cJSON.c:1001-1718 | parsing either print of a tree of C strings and exact integers gives the tree back, member order included, exactly when it is nested at most CJSON_NESTING_LIMIT deep; deeper trees are refused |
| `JsonRoundTrip.ReadValue` | third/cJSON/cJSON.c:1213-1265 | the same for a value anywhere in a buffer, at any depth, followed by what ends a value |
| `JsonRoundTrip.ReadString` | third/cJSON/cJSON.c:699-947 | RFC 8259 section 7: a printed string literal is read back, whatever bytes it holds but NUL |
| `JsonReading.ReadNumber` | third/cJSON/cJSON.c:267-341 | a printed integer below 10^15 is read back through the 63-character copy |
| `JsonReading.Utf8RoundTrip` | third/cJSON/cJSON.c:640-690 | the bytes written for a code point are its UTF-8 form: section 3 of RFC 3629 decodes them to it |
| `JsonRoundTrip.PrintIsNulFree` | third/cJSON/cJSON.c:1268-1339 | printed text contains no NUL, so it is a C string |
| `JsonGrammar.EveryTextIsRead` | third/cJSON/cJSON.c:1001-1078 | RFC 8259 sections 2 to 7: every JSON text, with any white space the grammar allows and with or without a byte order mark, is parsed to the value it denotes, exactly when it is nested at most CJSON_NESTING_LIMIT deep; its numbers are integers below 10^15 |
| `JsonGrammar.SyntaxIsRead` | third/cJSON/cJSON.c:1213-1265 | every written value is read wherever it stands in a buffer, followed by what ends a value |
| `JsonGrammar.BracketsAreRead` | third/cJSON/cJSON.c:1342-1433 | every written array, with white space around its elements, or only white space inside |
| `JsonGrammar.BracesAreRead` | third/cJSON/cJSON.c:1498-1604 | every written object, with white space around keys, colons and values |
| `JsonGrammar.TrailingTextIsRefused` | third/cJSON/cJSON.c:1030-1040 | text behind the value is refused when the text has to end there |
| `JsonGrammar.ArrayNeedsCommas` | third/cJSON/cJSON.c:1401-1416 | behind an element and white space, anything but a comma or a bracket is refused |
| `JsonGrammar.PrintIsJsonText` | third/cJSON/cJSON.c:1088-1161 | whatever is printed, formatted or not, is a JSON text of that grammar that denotes the printed value |
| `JsonGrammar.PrintIsLayout` | third/cJSON/cJSON.c:1436-1718 | the text of a value, laid out: one line for each member, indented by tabs, a tab before its value, elements in one line |
| `JsonStrings.ParsesStrictly` | third/cJSON/cJSON.c:699-825 | every string literal that section 7 of RFC 8259 allows, read by a reader of its own that knows its escapes from tables, is parsed to the text it stands for, as a C string |
| `JsonStrings.UnitStrict` | third/cJSON/cJSON.c:746-800 | one character or escape of such a literal, the letters b, f, n, r, t, quote, backslash and slash among them |
| `JsonStrings.CodeIsRead` | third/cJSON/cJSON.c:541-697 | every four-digit escape outside the surrogates, its digits in either case, stands for the UTF-8 bytes of its code point |
| `JsonStrings.PairIsRead` | third/cJSON/cJSON.c:606-636 | every surrogate pair stands for the UTF-8 bytes of its code point, from 0x10000 to 0x10FFFF |
| `JsonStrings.DigitsOfCode` | third/cJSON/cJSON.c:541-573 | every number of sixteen bits is written by its four places, in both cases |
| `JsonStrings.PrintsStrictly` | third/cJSON/cJSON.c:828-947 | a printed literal is one that section 7 of RFC 8259 allows, and stands for the string |
| `JsonStrings.EscapeIsClean` | third/cJSON/cJSON.c:905-941 | no byte below the space is printed inside a literal |
| `ParseBuffer.EstimateIsEnough` | third/cJSON/cJSON.c:708-741 | for every input, the bytes written never exceed the content length less the skipped backslashes, even where a bad \u sequence makes the two loops disagree on which backslashes escape |
| `ParseBuffer.UnitFits` | third/cJSON/cJSON.c:746-800 | every converted unit fits in the room its characters leave |
| `ParseBuffer.LiteralFits` | third/cJSON/cJSON.c:578-696 | one \u literal, or a surrogate pair, fits in the room its characters leave |
| `ParseBuffer.ParseBuffer.ReadString` | third/cJSON/cJSON.c:699-825 | parse_string writes only inside its block and returns the unescaped C string, or fails on an open literal, a bad escape or a bad surrogate; `JsonStrings.ParsesStrictly` says what every allowed literal is unescaped to |
| `ParseBuffer.ParseBuffer.MeasureString` | third/cJSON/cJSON.c:711-733 | the first loop finds the closing quote and counts the skipped backslashes |
| `ParseBuffer.ParseBuffer.ConvertLiteral` | third/cJSON/cJSON.c:578-696 | one or two \u sequences are converted to UTF-8, or refused; `JsonStrings.CodeIsRead` and `PairIsRead` say to which bytes |
| `ParseBuffer.ParseBuffer.WriteUtf8` | third/cJSON/cJSON.c:668-688 | writing from the last byte to the first gives the UTF-8 bytes |
| `ParseBuffer.ParseBuffer.ConvertUnit` | third/cJSON/cJSON.c:746-800 | one character or escape sequence of the literal |
| `ParseBuffer.ParseBuffer.ReadNumber` | third/cJSON/cJSON.c:267-341 | the copied prefix and strtod decide the number and the new offset |
| `ParseBuffer.ParseBuffer.SkipWhitespace` | third/cJSON/cJSON.c:964-982 | the offset moves to the next byte above 32, never past the end |
| `ParseBuffer.ParseBuffer.ReadValue` | third/cJSON/cJSON.c:1213-1265 | the cursor parser computes the recursive description of JSON values; depth is restored |
| `ParseBuffer.ParseBuffer.ReadArray` | third/cJSON/cJSON.c:1342-1433 | the element loop computes the recursive list of elements |
| `ParseBuffer.ParseBuffer.ReadObject` | third/cJSON/cJSON.c:1498-1604 | the member loop computes the recursive list of members |
| `ParseBuffer.ParseWithOpts` | third/cJSON/cJSON.c:1001-1084 | the tree of a whole text and where parsing stopped, with the optional check for trailing bytes; `JsonGrammar.EveryTextIsRead` says which tree |
| `PrintBuffer.PrintBuffer.Ensure` | third/cJSON/cJSON.c:374-459 | room is granted exactly within the capacity, growing keeps every byte written, a refusal changes nothing |
| `PrintBuffer.PrintBuffer.UpdateOffset` | third/cJSON/cJSON.c:462-472 | the offset moves to the terminating NUL of what was written |
| `PrintBuffer.PrintBuffer.CountEscapes` | third/cJSON/cJSON.c:854-882 | the first pass counts exactly the bytes the second pass writes |
| `PrintBuffer.PrintBuffer.PutAllEscaped` | third/cJSON/cJSON.c:905-941 | the second pass writes the escaped string; `JsonStrings.PrintsStrictly` says that section 7 of RFC 8259 allows it and reads it as the string |
| `PrintBuffer.PrintBuffer.WriteString` | third/cJSON/cJSON.c:828-947 | a string literal is written exactly when it fits with two bytes to spare |
| `PrintBuffer.PrintBuffer.WriteNumber` | third/cJSON/cJSON.c:475-538 | an integer is written exactly when it fits with two bytes to spare |
| `PrintBuffer.PrintBuffer.WriteValue` | third/cJSON/cJSON.c:1268-1339 | printing succeeds exactly when the text fits with two bytes to spare, and then the buffer holds that text behind what was there |
| `PrintBuffer.PrintBuffer.WriteArray` | third/cJSON/cJSON.c:1436-1495 | the loop over the elements writes the text of the array |
| `PrintBuffer.PrintBuffer.WriteObject` | third/cJSON/cJSON.c:1607-1718 | the loop over the members writes the text of the object, with indentation by depth |
| `PrintBuffer.PrintPreallocated` | third/cJSON/cJSON.c:1193-1210 | a fixed buffer succeeds exactly for lengths of at least the text and two bytes (the documented margin is five) and then holds what growing prints |
| `PrintBuffer.PrintAll` | third/cJSON/cJSON.c:1091-1161 | the growing print gives the text and its NUL, exactly when an int can hold the size |
| `PrintBuffer.PrintedTextParses` | third/cJSON/cJSON.c:1081-1161 | what was printed is parsed back from the C string |
| `Resp.MachineRefinesDecoder` | third/hiredis/read.c:190-414 | the task-stack machine computes exactly the recursive decoder: same reply, same rest, same error, same waiting |
| `Resp.ChunkIndependence` | third/hiredis/read.c:445-525 | splitting a byte stream into any feeds, with replies drained after each, gives the replies and the final state of one feed |
| `Resp.DrainThenFeed` | third/hiredis/read.c:445-525 | draining early and draining late give the same replies |
| `Resp.NextReplyExtends` | third/hiredis/read.c:477-525 | more bytes behind do not change a reply or an error, and continue a wait |
| `Resp.ReadItemExtends` | third/hiredis/read.c:215-365 | each item is decided by its own bytes |
| `RespEncoding.DecodeEncode` | third/hiredis/read.c:302-365 | the decoder inverts the encoding and stops at its end, exactly when arrays nest at most eight deep; the ninth level is a protocol error |
| `RespEncoding.PrefixIsPartial` | third/hiredis/read.c:249-300 | on a strict prefix of an encoding nothing is emitted and no error is raised |
| `RespEncoding.StreamRoundTrip` | third/hiredis/read.c:445-525 | encoded replies in a row come back one by one, however the bytes are cut up |
| `RespEncoding.WireForms` | third/hiredis/read.c:302-414 | the five forms on the wire, byte for byte, and the nil bulk string |
| `RespEncoding.NestingLimit` | third/hiredis/read.c:302-314 | eight arrays inside each other are read, and nine are refused |
| `RespEncoding.OtherBytesAreRefused` | third/hiredis/read.c:367-395 | a reply that starts with any other byte is refused, and nothing is read of no input |
| `RespEncoding.NothingIsRead` | third/hiredis/read.c:320-336 | the count -1 and the length -1 are nil, and the count 0 is the empty array |
| `RespEncoding.NumbersWrap` | third/hiredis/read.c:146-173 | numbers of any size, with or without a sign, are taken modulo 2^64 |
| `RespEncoding.NoNumberIsMinusOne` | third/hiredis/read.c:146-173 | a byte that is no digit behind the sign makes the number -1 |
| `Reader.SeekNewline` | third/hiredis/read.c:119-144 | the two nested loops find the first carriage return with a line feed |
| `Reader.ParseLongLong` | third/hiredis/read.c:146-173 | the digit loop with 64-bit wrap-around; -1 for unexpected input |
| `Reader.Reader.MoveToNextTask` | third/hiredis/read.c:190-213 | both assertions hold, and the stack moves to the next unfinished task |
| `Reader.Reader.ProcessLineItem` | third/hiredis/read.c:215-247 | status, error and integer lines are delivered, or wait |
| `Reader.Reader.ProcessBulkItem` | third/hiredis/read.c:249-300 | bulk strings are delivered whole, or wait; negative lengths are nil |
| `Reader.Reader.ProcessMultiBulkItem` | third/hiredis/read.c:302-365 | array headers push a task, deliver an empty or nil array, or fail at the ninth level |
| `Reader.Reader.ProcessItem` | third/hiredis/read.c:367-414 | one item advances the abstract machine by one step, with every stack index in range |
| `Reader.Reader.ProcessItems` | third/hiredis/read.c:501-504 | the loop runs the machine until a reply, a wait or an error |
| `Reader.Reader.Feed` | third/hiredis/read.c:445-475 | fed bytes are appended; an erroneous reader takes none |
| `Reader.Reader.Compact` | third/hiredis/read.c:510-516 | dropping the consumed part of the buffer changes nothing observable |
| `Reader.Reader.GetReply` | third/hiredis/read.c:477-525 | one call gives the reply, the wait or the error of the machine and keeps the rest |
| `Reader.Reader.DrainReplies` | third/hiredis/read.c:477-525 | calling until there is no reply gives all replies the bytes hold |
| `Command.CommandRoundTrip` | third/hiredis/hiredis.c:530-566 | the reader decodes a formatted command to exactly its arguments |
| `Command.TotalLength` | third/hiredis/hiredis.c:530-545 | the byte count computed beforehand is the length of the command |
| `Command.FormatCommandArgv` | third/hiredis/hiredis.c:530-566 | the buffer is filled exactly: every byte of the command and one NUL |
| `Command.BulkLen` | third/hiredis/hiredis.c:206-208 | the length of one bulk string with its header |
| `Decimal.CountDigits` | third/hiredis/hiredis.c:193-203 | four digits a turn, the loop counts the decimal digits |
| `Decimal.DecimalRoundTrip` | third/hiredis/hiredis.c:193-203 | accumulating the digits of a printed number gives it back |
| `Decimal.PlaceValue` | third/hiredis/hiredis.c:405-408 | decimal text: every digit is that of its place, and there are no more digits than the number needs |
| `Command.FormatArguments` | third/hiredis/hiredis.c:231-385 | the format loop gives the arguments of the pieces, for %s, %b, %d and %%; `Command.FormatIsItsWords` says which arguments those are |
| `Command.FormatCommand` | third/hiredis/hiredis.c:210-442 | the formatted command is the encoding of those arguments, in a buffer of exactly its size |
| `Command.TextIsOneWord` | third/hiredis/hiredis.c:246-275 | text without a separating space is one argument, even when it is empty |
| `Command.SpaceSplits` | third/hiredis/hiredis.c:232-245 | only a space of the format separates arguments |
| `Command.FormatIsItsWords` | third/hiredis/hiredis.c:231-385 | every format: words separated by single spaces, each of letters that stand for themselves, doubled percent signs and conversions, give exactly as many arguments, with the conversions replaced by what was passed |
| `Command.LettersAreOneWord` | third/hiredis/hiredis.c:246-250 | a format without a percent sign and a space is one argument, equal to itself |
| `Command.PlainArguments` | src/redisop.c:149 | "PING" gives the argument PING, and "%%" a percent sign |
| `Command.PushArguments` | client/hisqlbus.c:419 | "LPUSH %s %s" gives LPUSH, the queue and the request |
| `Command.LoginArguments` | src/redisop.c:241 | "AUTH %s" gives AUTH and the password |
| `Command.SelectArguments` | src/redisop.c:277 | "SELECT %d" gives SELECT and the number in decimal, and the "SELECT %s" of a client its text |
| `Command.WaitAndExpireArguments` | src/redisop.c:317 | "EXPIRE %s %d" gives EXPIRE, the key and the seconds in decimal, and the "BRPOP %s %d" of a client likewise |
| `Command.CommandOnTheWire` | third/hiredis/hiredis.c:405-421 | a command on the wire: the count of its arguments in decimal, and for each its length and its bytes |
| `Command.PingOnTheWire` | third/hiredis/hiredis.c:405-421 | the fourteen bytes of PING |
| `Command.ThreeArguments` | src/redisop.c:78 | "%s %s %s" gives three arguments whatever the texts contain, up to their first NUL |
| `Command.PopArguments` | src/redisop.c:112 | "%s %s %d" gives three arguments: the texts up to their first NUL, and the number in decimal |
| `Command.ThreeConversions` | third/hiredis/hiredis.c:246-385 | three conversions with spaces between them give three arguments, whatever is printed |
| `Async.EveryCallbackOnce` | third/hiredis/async.c:227-363 | in every run and for every behaviour of the user functions: they run in the order of their commands, the k-th reply goes to the k-th accepted command, a freed context has run every user function exactly once, with NULL where no reply came, and the clean-disconnect assertion never fails |
| `Async.ErrorGivesUp` | third/hiredis/async.c:495-563 | with an error number left behind, the next read or write frees the context, exactly unless the connection is still in progress, and then nothing changes |
| `Async.SlowConnectIsGivenUp` | third/hiredis/async.c:495-563 | a context that was looked at once while connecting is freed at the event that finds it connected |
| `Async.DeliveredToItsCommand` | third/hiredis/async.c:265-272 | every call in the required sequence belongs to an accepted command with a function, and has the reply of its rank |
| `Async.StepSound` | third/hiredis/async.c:412-563 | every event keeps the pending list in order and the record of calls exact |
| `Async.TeardownSound` | third/hiredis/async.c:275-317 | tearing down runs every pending callback with NULL, in order, and terminates |
| `Async.DisconnectSound` | third/hiredis/async.c:331-350 | the assertion on a clean disconnect holds at every place it is reached from |
| `Async.OneReplySound` | third/hiredis/async.c:433-479 | one reply goes to the oldest pending callback; freeing asked for in it is carried out after it |
| `Async.NothingNewOnceClosing` | third/hiredis/async.c:584-589 | once disconnecting or freeing was asked for, no later command is accepted |
| `Async.SpontaneousExactly` | third/hiredis/async.c:435-462 | the assertion that the context is subscribed fails exactly when a reply that is not an error comes in with no command left to answer |
| `Async.DeliveredOnce` | third/hiredis/async.c:265-272 | in the required sequence of calls each command with a function occurs once, with its own reply |
| `AsyncRuns.RunAccepts` | third/hiredis/async.c:584-649 | in every run, the accepted commands are, in order, those of the calls and of the user functions while the context lives and is not closing: all of them, and no others |
| `AsyncRuns.StepAccepts` | third/hiredis/async.c:584-649 | the same for one event |
| `AsyncRuns.OneCommand` | third/hiredis/async.c:433-563 | one command, one write and one reply: the user function is called once, with that reply, and nothing is left |
| `AsyncRuns.DisconnectCompletes` | third/hiredis/async.c:433-479 | a disconnected context is freed by the read that brings the last reply it waits for |
| `AsyncRuns.AskedCloses` | third/hiredis/async.c:323-363 | freeing frees at once; disconnecting does when nothing is pending, and waits otherwise |
| `AsyncRuns.AskedInCallback` | third/hiredis/async.c:433-479 | what a user function asked for: freeing is done when it returns, disconnecting is remembered, and otherwise the context lives on |
| `AsyncRuns.Looks` | third/hiredis/async.c:495-563 | a broken or refused socket frees the context, one still in progress leaves an error behind, and a completed write leaves nothing to write |
| `AsyncRuns.ProtocolErrorEnds` | third/hiredis/async.c:486-489 | a protocol error ends the context, whatever was read before it |
| `AsyncRuns.Notices` | third/hiredis/async.c:296-350 | the disconnect notice says success after freeing and after a clean disconnect, and failure after a broken connection |
| `AsyncContext.CallbackList.Push` | third/hiredis/async.c:227-247 | a callback is appended to the linked list |
| `AsyncContext.CallbackList.Shift` | third/hiredis/async.c:249-263 | the first callback is taken off, and the tail is reset with the last one |
| `AsyncContext.AsyncContext.AsyncCommand` | third/hiredis/async.c:584-649 | a command is accepted exactly when the context is not closing; then its callback is the last of the list, it is the last of the commands, and there is something to write; otherwise nothing changes |
| `AsyncContext.AsyncContext.UserFunction` | third/hiredis/async.c:265-272 | a user function may issue commands, disconnect and free through the public calls |
| `AsyncContext.AsyncContext.RunCallback` | third/hiredis/async.c:265-272 | the callback flag is set around the user function |
| `AsyncContext.AsyncContext.FreeNow` | third/hiredis/async.c:275-317 | the loop over pending callbacks, then the disconnect notice of a connected context |
| `AsyncContext.AsyncContext.AsyncFree` | third/hiredis/async.c:323-328 | free at once, or defer while a callback runs |
| `AsyncContext.AsyncContext.AsyncDisconnect` | third/hiredis/async.c:358-363 | disconnect at once when nothing is pending and no callback runs |
| `AsyncContext.AsyncContext.DisconnectNow` | third/hiredis/async.c:331-350 | its assertion is proved from its callers |
| `AsyncContext.AsyncContext.OneReply` | third/hiredis/async.c:433-479 | one turn of the reply loop on the linked list |
| `AsyncContext.AsyncContext.ProcessCallbacks` | third/hiredis/async.c:412-490 | the reply loop computes the abstract run over the buffered replies |
| `AsyncContext.AsyncContext.HandleConnect` | third/hiredis/async.c:495-512 | the first event on a socket: refused, still in progress, or established |
| `AsyncContext.AsyncContext.HandleRead` | third/hiredis/async.c:517-536 | a readable socket is one abstract event |
| `AsyncContext.AsyncContext.HandleWrite` | third/hiredis/async.c:538-563 | a writable socket is one abstract event |
| `Dict.MaskIsRemainder` | third/hiredis/dict.c:99-120 | masking with a power of two less one is the remainder, so a bucket index is in the table |
| `Dict.HashIs` | third/hiredis/dict.c:52-60 | the hash starts at 5381, and every byte is added to 33 times the hash before it, in 32 bits |
| `Dict.NextPower` | third/hiredis/dict.c:306-315 | the next power of two from four on, clamped where a long ends |
| `Dict.Dict.Find` | third/hiredis/dict.c:243-256 | lookup gives the entry of the key exactly when the map has it |
| `Dict.Dict.Expand` | third/hiredis/dict.c:88-132 | the table gets the requested size and the map stays the same |
| `Dict.Dict.Rehash` | third/hiredis/dict.c:107-126 | every entry moves to its bucket in the new table, and the assertion that none is left holds |
| `Dict.Dict.MoveBucket` | third/hiredis/dict.c:111-124 | the inner loop moves one chain, entry by entry |
| `Dict.Dict.PushEntry` | third/hiredis/dict.c:144-148 | an entry becomes the head of its chain, and no other chain changes |
| `Dict.Dict.ExpandIfNeeded` | third/hiredis/dict.c:295-303 | there is always a free slot afterwards: a missing table gets four buckets, a full one twice as many, and any other stays |
| `Dict.Dict.KeyIndex` | third/hiredis/dict.c:320-337 | the bucket for a new key as an int, or -1 for one that is there |
| `Dict.Dict.Add` | third/hiredis/dict.c:135-154 | adding succeeds exactly for a new key and extends the map |
| `Dict.Dict.Replace` | third/hiredis/dict.c:160-179 | the map is updated; the result tells whether the key was new |
| `Dict.Dict.Delete` | third/hiredis/dict.c:182-210 | the key is removed and one entry unlinked, exactly when the map had the key |
| `Dict.Dict.DropEntry` | third/hiredis/dict.c:193-204 | an entry that was found is unlinked, and its key leaves the map |
| `Dict.Dict.Unlink` | third/hiredis/dict.c:193-204 | relinking around an entry takes it out of its chain only |
| `Dict.EachKeyOnce` | third/hiredis/dict.c:258-286 | the entries in bucket order are the keys of the map, each once |
| `Dict.DictIterator.Next` | third/hiredis/dict.c:268-286 | the iterator gives the pending entries one by one |
| `Dict.DictIterator.DeleteCurrent` | third/hiredis/dict.c:278-281 | deleting the entry just returned leaves the rest of the iteration as it was |
| `Dict.VisitAll` | third/hiredis/dict.c:258-286 | an iteration whose caller deletes any of the entries it is given meets every key exactly once |
| `Dict.VisitNext` | third/hiredis/dict.c:268-286 | one turn of such an iteration gives the first pending entry and deletes it from the map if asked to |
| `Sds.QuotingRoundTrip` | third/hiredis/sds.c:856-1039 | splitting the space-joined quoted forms of any byte strings gives those byte strings back |
| `Sds.SpellingRoundTrip` | third/hiredis/sds.c:926-1039 | splitting gives back every list of arguments, each written in any of three ways: as it stands, between single quotes with escaped apostrophes, or in its quoted form |
| `Sds.HexEscapeReads` | third/hiredis/sds.c:951-960 | an escape with two hexadecimal digits of either case is the byte of that number |
| `Sds.OtherEscapeReads` | third/hiredis/sds.c:961-975 | behind a backslash, the letters n, r, t, b and a are control characters, and anything else is itself |
| `Sds.QuoteIs` | third/hiredis/sds.c:856-879 | which bytes are written as themselves, by a letter, or by two hexadecimal digits |
| `Sds.UnbalancedIsRefused` | third/hiredis/sds.c:974-985 | a line with a quote that is not closed, or closed inside a word, is refused |
| `Sds.QuotedReads` | third/hiredis/sds.c:949-985 | inside double quotes every quoted byte is read back |
| `Sds.CatRepr` | third/hiredis/sds.c:856-879 | the quoting loop appends the quoted form |
| `Sds.SplitToken` | third/hiredis/sds.c:944-1021 | the inner loop reads one token in its three modes, or finds a quote that is not closed properly |
| `Sds.SplitArgs` | third/hiredis/sds.c:931-1039 | the outer loop gives the arguments of the whole line, or nothing |
| `Server.SuccessAtMostOnce` | src/sqlbus.c:1003-1083 | in every run, a request that arrived n times has statements succeed in at most n passes: one that succeeded is never put back |
| `Server.SucceededIs` | src/sqlbus.c:1020-1048 | a pass has a success exactly when its first or its second statement was done |
| `Server.NothingVanishes` | src/sqlbus.c:86-147 | in every run: each arrival is waiting, finished, discarded or lost, exactly one of these; the lost ones are those of the turns that broke off with a put-back that failed; the connection is up at each loop head unless the loop has stopped |
| `Server.ConservedExactly` | src/sqlbus.c:1057-1064 | every arrival is waiting, finished or discarded exactly in the runs in which no put-back fails |
| `Server.PutBackCanFail` | src/sqlbus.c:1057-1064 | a run of one turn whose put-back fails loses its request, and with a put-back that succeeds it is waiting again |
| `Server.RunLoses` | src/sqlbus.c:1057-1064 | the records of lost requests are, in order, those of the failed put-backs |
| `Server.ClientRequestIsServed` | src/request.c:28-177 | what a client marshals is what the service executes, statement by statement: a single one alone, of an update and an insert the update, and the insert exactly when the update found nothing; then it is finished or put back, and answered |
| `Server.RecordIsSound` | src/sqlbus.c:1003-1067 | a request is put back exactly when its last statement failed with the connection down and Redis took it, and lost exactly when Redis did not; an insert runs only after an update that found nothing; a request put back is not answered in that pass |
| `Server.RecordRunsAsAsked` | src/sqlbus.c:1020-1043 | a single statement runs alone; of an update and an insert the update runs first, and the insert exactly when the update found nothing; nothing runs of a request that is refused or has no resources |
| `Server.RunRunsRequests` | src/sqlbus.c:86-147 | in every run, every pass executes the statements of its own request, in that order |
| `Server.RunInOrder` | src/sqlbus.c:86-147 | in every run without put-backs, requests are served in the order in which they arrived |
| `Server.StepSound` | src/sqlbus.c:86-147 | one turn of the loop keeps the balance of requests |
| `Server.Service.DBExecute` | src/driver_manager.c:404-420 | on failure the connection status is updated, and the result code as long as the connection is up |
| `Server.Service.ExecuteStatement` | src/sqlbus.c:1003-1083 | which statements run and in which order, what becomes of the request, and the state of the connection afterwards |
| `Server.Service.BreakOff` | src/sqlbus.c:1050-1082 | without a connection: the statement handle is given up, the request put back whole or lost, and the connection restored |
| `Server.Service.WriteBack` | src/redisop.c:66-92 | the whole request goes back to the left end of the list |
| `Server.Service.Reconnect` | src/sqlbus.c:1068-1080 | the loop ends with the connection up, or with the exit signal seen |
| `Server.Service.Respond` | src/sqlbus.c:133-138 | there is an answer exactly when a statement handle and a channel are left |
| `Server.Service.ServeRequest` | src/sqlbus.c:113-146 | a popped request is recorded with exactly one fate |
| `Server.Service.ServeStatement` | src/sqlbus.c:128-146 | one request is executed, answered if it asked for it, and recorded |
| `Server.Service.Serve` | src/sqlbus.c:86-147 | the loop over any sequence of turns is the abstract run |
| `Server.RunService` | src/sqlbus.c:86-147 | the service with the request parser of module Message runs the abstract loop from its start |
| `Server.ParserIsAnswerable` | src/request.c:95-122 | a synchronous request that this parser accepts says where its answer goes |
| `Message.RequestRoundTrip` | client/util.c:159-204 | what the client marshals the server recovers field by field; the process number arrives unchanged exactly below 2^31 |
| `Message.RequestOnTheWire` | client/util.c:159-204 | the text of a request, member by member, for one statement or for an update and an insert |
| `Message.IntSaturates` | src/request.c:69-76 | a number beyond an int becomes its largest or smallest value |
| `Message.MarshalJson` | client/util.c:159-204 | nothing is sent when a required string is NULL, otherwise the printed tree |
| `Message.SentExactly` | client/util.c:159-204 | a request is sent exactly when application, id, type and channel are there, and a statement or both an update and an insert |
| `Message.Handle.ParseFields` | src/request.c:28-177 | the fields are taken in order, and the request is refused exactly when one is missing or of the wrong kind |
| `Message.RequestsExactly` | src/request.c:28-177 | which trees are requests: the texts, numbers and the flag are there, a channel unless the flag is false, and a statement that is a text or holds an update and an insert |
| `Message.Handle.FreeRequest` | src/request.c:187-208 | no string of the request is left |
| `Message.ResponseRoundTrip` | client/util.c:297-440 | the client accepts every table the server builds, reads back each cell by row and column and nothing outside, finds the first column whose name matches up to case, and keeps the error id as an unsigned number |
| `Message.GenerateResponse` | src/sqlbus.c:867-1001 | the nested loops build the tree of the table and print it |
| `Message.UnmarshalJson` | client/util.c:297-344 | accepted exactly when all fourteen results are plain successes |
| `Message.GetFieldIdx` | client/util.c:381-413 | the loop finds the first matching name |
| `Message.FieldIdxIsFirstMatch` | client/util.c:381-413 | on string columns the search is the first match up to case |
| `Message.FirstMatchIs` | client/util.c:381-413 | it is a position exactly when a name matches up to case, and then the first of these |
| `Oracle.Statement.Fetch` | drivermanager/oracle/ora.pc:702-805 | the rows fetched, up to the maximum, are stored one after another, each value trimmed of the blanks of the program at hand and filled up to its capacity |
| `Oracle.Statement.PutRow` | drivermanager/oracle/ora.pc:768-790 | the running offset ends one row further, with the bytes of the row in between |
| `Oracle.CellInTable` | drivermanager/oracle/ora.pc:1146-1161 | the cell of a row and a field is at row times row size plus the sum of the capacities before, inside the block |
| `Oracle.CellsAreDisjoint` | drivermanager/oracle/ora.pc:676-690 | no two cells share a byte |
| `Oracle.Statement.GetFieldValueIdx` | drivermanager/oracle/ora.pc:1106-1165 | random access returns the stored value, or that there is none |
| `Oracle.Statement.GetNextRow` | drivermanager/oracle/ora.pc:1005-1028 | the row cursor steps to the next row and goes back after the last |
| `Oracle.Statement.GetFieldValue` | drivermanager/oracle/ora.pc:1041-1089 | the field cursor returns the values of the row in order and goes back after the last |
| `Oracle.Statement.WalkAll` | drivermanager/oracle/ora.pc:1005-1089 | walking with both cursors visits every cell once, row after row, with the stored values |
| `Oracle.RTrim` | drivermanager/oracle/util.c:13-19 | trailing blanks become NULs, whichever bytes count as blanks |
| `Oracle.BlanksDiffer` | src/util.c:59-65 | the two functions of that name keep the same of a text exactly unless it ends, blanks aside, in a line end |
| `Oracle.LineEndIsKept` | src/util.c:59-65 | a text that ends in a line end is stored with it or without it, depending on the program |
| `Oracle.LTrim` | drivermanager/oracle/util.c:21-36 | the C string loses exactly its leading spaces |
| `Oracle.TrimmedIs` | drivermanager/oracle/ora.pc:758-790 | of a value between spaces and trailing blanks, a converted one is stored as the text alone, and another keeps its left side |
| `Oracle.NothingIsStored` | drivermanager/oracle/ora.pc:758-790 | blanks alone and a missing value are stored as the empty string |

## Left out

- Sockets, timeouts, event-loop adapters, logging, configuration, process and signal set-up: plumbing around the modelled code.
- Allocation failure and the freeing of memory, except the teardown of the asynchronous context.
- Numbers other than integers below 10^15 in JSON text: fractions, exponents and minus zero are answered with NotModelled by the parser functions.
- Raw, invalid and reference nodes of cJSON, and NaN.
- Objects with repeated keys, keys with ~ or / in pointers and patches, and the case-sensitive variants of the utilities.
- TEST, MOVE and COPY patches (status 4 to 6), and running out of memory (status 8).
- Arrays of 2^64 and more elements, which no memory holds: `PatchRfc.SIZE_LIMIT` bounds positions.
- JSON trees under patching, merging and comparing are values: positions and member lists are updated, while the relinking of nodes is modelled for one list at a time in `KeySort` and `ItemList`.
- MergePatch.GenerateMergePatch: is tied to the difference of the trees only where comparing the keys with case and without gives the same order, because the code does the one after sorting by the other.
- MergePatch.WalkMembers: is tied to the difference of the fields under the same condition.
- JsonPatch.Document.DetachPath: paths with the escape character ~, whose decoding in the source is not that of RFC 6901.
- JsonPatch.Document.AddAtPath: the same paths.
- JsonPatch.Document.CarryOut: the same paths.
- JsonPatch.PatchConforms: the same paths.
- JsonPatch.Document.ApplyPatch: move, copy and test patches, and paths with ~.
- JsonPatch.Document.ApplyPatches: arrays that hold such patches.
- JsonPatch.PatchArray.Compose: the suffix is not escaped; keys that would need it are left out.
- ParseBuffer.ParseWithOpts: the position reported for a text that is refused, and NotModelled numbers.
- ParseBuffer.ParseBuffer.ReadNumber: fractions, exponents and minus zero are answered with NotModelled.
- ParseBuffer.ParseBuffer.ReadValue: values that hold such numbers are answered with NotModelled.
- PrintBuffer.PrintBuffer.WriteNumber: integers only.
- PrintBuffer.PrintBuffer.Ensure: an initial size of 0 for a growing buffer is not modelled.
- Reader.Reader.Feed: replacing an empty buffer that is larger than maxbuf is not modelled; it changes no byte that is still to be read.
- Reader.Reader.ProcessBulkItem: bulk lengths for which the position arithmetic would overflow, and lines longer than an int, are not modelled.
- Reader.Reader.ProcessMultiBulkItem: an element count that changes when narrowed to an int stops the reader with an error of the model's own, because the source then disagrees with itself about the array.
- Reply arrays are filled as values handed to their parent task, not through the parent pointers of read.h.
- Command.FormatArguments: covers spaces, %s, %b, %d and %%; flags, widths and the other printf conversions are outside the format this model supports.
- Command.FormatCommand: the total length is not an int that can overflow.
- Publish/subscribe and MONITOR in the asynchronous context, and calls into the context from its connect and disconnect callbacks.
- Async.EveryCallbackOnce: the numbers of commands and replies stand for the private data and the reply objects.
- AsyncContext.AsyncContext.AsyncCommand: the subscribe, unsubscribe and monitor branches.
- AsyncContext.AsyncContext.FreeNow: the tables of pub/sub callbacks.
- AsyncContext.AsyncContext.OneReply: subscribed and monitoring contexts.
- AsyncContext.AsyncContext.ProcessCallbacks: subscribed and monitoring contexts.
- Dict.Dict.Add: tables of 2^31 entries and more, whose bucket indices do not fit the int they are kept in.
- Oracle.Statement.GetFieldValueIdx: negative row and field numbers, and several queries executed by one statement.
- Oracle.Statement.Fetch: descriptors, capacities of 4000 bytes and more (see above), and the connection errors of a fetch.
- Message.RequestRoundTrip: time stamps beyond an int, whose conversion the language leaves undefined.
- Server.Service.Serve: the waiting loops before the first request, and the check of the Redis connection after a failed pop, which change no request.
- redisFormatSdsCommandArgv, which repeats redisFormatCommandArgv on an sds string.
- Server.ParserOf: texts whose numbers the parser of `JsonText` does not cover are left to an arbitrary other parser.
- sds memory management (sdsMakeRoomFor, sdscatlen, sdsrange): strings are values here, so their buffers have no room to manage.
