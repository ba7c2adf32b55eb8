# Developer records and project assignment, modelled in Dafny

This project models two files of a developer-portfolio repository.

The first is a C library of developer records, `01_Languages/C/data-structures-algorithms.c`. It holds:

- a validator for records;
- a singly linked list with prepend insert, lookup by id and a guarded insert that refuses invalid records and duplicate ids;
- a growable array that doubles its capacity when full;
- an in-place Lomuto quicksort that orders records by salary, highest first;
- a 101-bucket chained hash table keyed by an integer;
- a strtok-based splitter for the comma-separated skill string.

The second is a Java application object, `01_Languages/Java/OOPConcepts.java`. It holds:

- a generic keyed `Repository<T>`;
- the project lists of developers and project managers;
- the assignment of a project to an employee, with its two error cases.

Parts of the C code change state step by step: list heads, array cells, buckets, the skill loop. These are Dafny classes and methods with loops, proved against pure specification functions:

- `FindById` for the list;
- `ChainFind` and `Lookup` for the hash table;
- `SortedBetween`, `PartitionedAt` and `SameOutside` with multisets for the sort;
- `Tokens` and `Trim` for the skill splitter.

The Java classes update their fields in place. They are Dafny classes whose `map` and `seq` fields the methods reassign.

Files, one module each:

| file | module | models |
|---|---|---|
| `wrappers.dfy` | `Wrappers` | `Option` and `Outcome` result types |
| `developer.dfy` | `DeveloperRecords` | the record and `validateDeveloper` |
| `linked_list.dfy` | `DeveloperLists` | the linked list and `safeDeveloperInsert` |
| `salary_sort.dfy` | `SalarySort` | `swapDevelopers`, `partition`, `quickSort` |
| `dynamic_array.dfy` | `DynamicArrays` | the growable array and `sortDevelopersBySalary` |
| `hash_table.dfy` | `DeveloperHashing` | `hash` and the chained hash table |
| `skill_tokens.dfy` | `SkillTokens` | `processSkillString` |
| `repository.dfy` | `Repositories` | `Repository<T>` |
| `employees.dfy` | `Employees` | employees and their project lists |
| `project_assignment.dfy` | `ProjectAssignment` | sample data and `assignProjectToEmployee` |

## Model

| member | source | states |
|---|---|---|
| DeveloperRecords.ValidateDeveloper | 01_Languages/C/data-structures-algorithms.c:526-537 | A record is valid exactly when its id is positive, its name is non-empty, its email contains '@' and its salary is not negative. The separate non-empty-email check adds nothing beyond the '@' check. |
| DeveloperLists.FindById | 01_Languages/C/data-structures-algorithms.c:101-110 | A record found has the requested id and is in the list. Nothing is found exactly when no record has that id. |
| DeveloperLists.FindByIdIsFirstMatch | 01_Languages/C/data-structures-algorithms.c:101-110 | The record found is the one nearest the head: when no earlier record has the id, the record at index i is returned. |
| DeveloperLists.SafeInsertAllKeepsIdsUnique | 01_Languages/C/data-structures-algorithms.c:539-553 | A list built only through the guarded insert, starting from one with distinct ids and valid records, keeps distinct ids and valid records. |
| DeveloperLists.Node.constructor | 01_Languages/C/data-structures-algorithms.c:77-85 | A new node holds the record and links to the old head; the records reachable from it are the record followed by the old ones. |
| DeveloperLists.LinkedList.constructor | 01_Languages/C/data-structures-algorithms.c:70-75 | A new list is empty, with size 0. |
| DeveloperLists.LinkedList.InsertDeveloper | 01_Languages/C/data-structures-algorithms.c:77-85 | The record becomes the head, in front of the old contents, and the size grows by one. |
| DeveloperLists.LinkedList.FindDeveloperById | 01_Languages/C/data-structures-algorithms.c:101-110 | The walk from the head answers what `FindById` answers on the list's contents. |
| DeveloperLists.LinkedList.SafeDeveloperInsert | 01_Languages/C/data-structures-algorithms.c:539-553 | Returns 0 or -1. It returns 0 exactly when the record is valid and its id is absent, and then the record is prepended. On -1 the head, the size and the contents are unchanged. |
| SalarySort.SwapDevelopers | 01_Languages/C/data-structures-algorithms.c:301-305 | The two cells exchange their records; every other cell keeps its record; the array holds the same records. |
| SalarySort.Partition | 01_Languages/C/data-structures-algorithms.c:155-173 | The returned index p lies in [low, high] and holds the old last record (the pivot). Salaries before p are at least the pivot's; salaries after p, up to high, are below it. The array is a permutation of its old contents, unchanged outside [low, high]. |
| SalarySort.QuickSortStep | 01_Languages/C/data-structures-algorithms.c:175-181 | A partitioned range whose left and right parts are each sorted in place ends sorted as a whole. |
| SalarySort.QuickSort | 01_Languages/C/data-structures-algorithms.c:175-181 | The range [low, high] ends sorted by salary, highest first. It holds the same records as before, and cells outside it are untouched. |
| DynamicArrays.ZeroCapacityLeavesNoRoom | 01_Languages/C/data-structures-algorithms.c:145-152 | With capacity 0 the growth check leaves the capacity at 0, so it makes no room for the record about to be written. |
| DynamicArrays.GrowthLeavesRoom | 01_Languages/C/data-structures-algorithms.c:145-152 | From a capacity of at least 1, the capacity after the growth check exceeds the size and is at most double. |
| DynamicArrays.DynamicArray.constructor | 01_Languages/C/data-structures-algorithms.c:123-129 | A new array has the requested capacity as its buffer length and holds no records. |
| DynamicArrays.DynamicArray.ResizeArray | 01_Languages/C/data-structures-algorithms.c:131-143 | The buffer doubles; the old cells sit at its front; size and records in use are unchanged. |
| DynamicArrays.DynamicArray.AddDeveloper | 01_Languages/C/data-structures-algorithms.c:145-152 | The record is appended after those in use, and the size grows by one. The capacity becomes `GrownCapacity` of the old size and capacity, which doubles it exactly when the array was full. The buffer is either the old one or a newly allocated one. `Valid()` holds before and after, so the capacity is at least 1 and, by `GrowthLeavesRoom`, the write always lands inside the buffer. |
| DynamicArrays.DynamicArray.SortDevelopersBySalary | 01_Languages/C/data-structures-algorithms.c:183-188 | The records in use end sorted by salary, highest first, as a permutation of the old ones; buffer cells beyond the size are untouched. |
| DeveloperHashing.Hash | 01_Languages/C/data-structures-algorithms.c:208-210 | For a non-negative key the index is a valid bucket in [0, 101); a key below 101 is its own index. |
| DeveloperHashing.HashAsWritten | 01_Languages/C/data-structures-algorithms.c:208-210 | With C's truncating remainder on a 32-bit key, converted to unsigned, the result lies in [0, 2^32). |
| DeveloperHashing.HashAsWrittenOnNaturalKeys | 01_Languages/C/data-structures-algorithms.c:208-210 | On non-negative 32-bit keys the code as written agrees with `Hash`. |
| DeveloperHashing.NegativeKeyIndexesOutsideTable | 01_Languages/C/data-structures-algorithms.c:208-210 | As written, key -1 yields index 4294967295, far outside the 101 buckets. |
| DeveloperHashing.NegativeKeysIndexOutsideTable | 01_Languages/C/data-structures-algorithms.c:208-210 | As written, every negative 32-bit key that is not a multiple of 101 yields an index of at least 2^32 - 100, far outside the 101 buckets; a negative multiple of 101 yields bucket 0. |
| DeveloperHashing.ChainFind | 01_Languages/C/data-structures-algorithms.c:229-240 | A value found is stored in the chain under the key. Nothing is found exactly when no entry of the chain has the key. |
| DeveloperHashing.HashTable.constructor | 01_Languages/C/data-structures-algorithms.c:212-218 | All 101 buckets start empty, so every lookup finds nothing. |
| DeveloperHashing.HashTable.HashInsert | 01_Languages/C/data-structures-algorithms.c:220-227 | The entry goes to the front of its key's bucket, and other buckets are unchanged. A search for the key then finds the new record, shadowing older entries. Searches for every other key answer as before. |
| DeveloperHashing.HashTable.HashSearch | 01_Languages/C/data-structures-algorithms.c:229-240 | The walk of the key's bucket answers the table's lookup; a record found is stored in that bucket under the key. |
| SkillTokens.Split | 01_Languages/C/data-structures-algorithms.c:282 | Cutting the string at every comma gives at least one piece, and no piece holds a comma. |
| SkillTokens.JoinSplit | 01_Languages/C/data-structures-algorithms.c:282 | Splitting loses nothing: the pieces joined with commas give back the string. |
| SkillTokens.SplitJoin | 01_Languages/C/data-structures-algorithms.c:282 | Pieces without commas, joined and split again, come back unchanged. |
| SkillTokens.NonEmpty | 01_Languages/C/data-structures-algorithms.c:296 | Dropping the empty pieces keeps only non-empty pieces taken from the input, and never more of them. |
| SkillTokens.Tokens | 01_Languages/C/data-structures-algorithms.c:282 | Each token strtok can return for the delimiter "," is non-empty and holds no comma. |
| SkillTokens.TokensAtWord | 01_Languages/C/data-structures-algorithms.c:296 | A token runs from its start up to the next comma or the end of the string, and the next call resumes after that comma. |
| SkillTokens.TokensSkipComma | 01_Languages/C/data-structures-algorithms.c:282 | A comma where a token could begin is skipped. |
| SkillTokens.NextToken | 01_Languages/C/data-structures-algorithms.c:296 | One strtok call from a position. It either returns the first token after that position, with the position where the next call resumes, or reports that none is left. |
| SkillTokens.FirstKept | 01_Languages/C/data-structures-algorithms.c:286 | The skip of leading spaces stops at the first non-space at or after the start (or at the end), and only spaces lie before it. |
| SkillTokens.LastKept | 01_Languages/C/data-structures-algorithms.c:289-292 | The cut of trailing spaces stops just after the last non-space (or at the start), and only spaces lie after it. |
| SkillTokens.Trim | 01_Languages/C/data-structures-algorithms.c:286-292 | The trimmed token is the slice of the token that starts at its first non-space and has only spaces after it. It neither starts nor ends with a space, and a token of spaces only becomes empty. |
| SkillTokens.TrimToken | 01_Languages/C/data-structures-algorithms.c:286-292 | The two trimming loops, run on the token strtok returned, compute `Trim` of it. |
| SkillTokens.ProcessSkillString | 01_Languages/C/data-structures-algorithms.c:280-298 | The count equals the number of results, which is the smaller of 10 and the number of tokens. Result i is token i with its spaces trimmed. |
| Repositories.Repository.constructor | 01_Languages/Java/OOPConcepts.java:158-160 | A new repository stores nothing. |
| Repositories.Repository.Save | 01_Languages/Java/OOPConcepts.java:162-164 | The id now maps to the item, overwriting any older item; every other id keeps its item. The count grows by one exactly when the id was new. |
| Repositories.Repository.FindById | 01_Languages/Java/OOPConcepts.java:166-168 | Something is found exactly when the id is stored, and it is the stored item. |
| Repositories.Repository.FindAll | 01_Languages/Java/OOPConcepts.java:170-172 | Returns exactly the stored items, in no particular order. Every item returned is stored, and every stored item is returned. The list pairs one-to-one with the stored ids, so each item appears once per id that holds it. |
| Repositories.Repository.Delete | 01_Languages/Java/OOPConcepts.java:174-176 | Answers true exactly when the id was stored. Afterwards the id is gone and every other id keeps its item; the count drops by one exactly when something was removed. |
| Repositories.Repository.Count | 01_Languages/Java/OOPConcepts.java:178-180 | The number of distinct ids stored. |
| Employees.RemoveFirst | 01_Languages/Java/OOPConcepts.java:84-88 | A list without the name is unchanged; otherwise the list loses exactly one element. |
| Employees.RemoveFirstMultiset | 01_Languages/Java/OOPConcepts.java:84-88 | Completing takes exactly one copy of the project out of the list, if there is one, and leaves every other entry. |
| Employees.RemoveFirstAt | 01_Languages/Java/OOPConcepts.java:132-136 | It is the first occurrence that goes: the entries before and after it stay, in order. |
| Employees.Employee.constructor | 01_Languages/Java/OOPConcepts.java:54-59 | A new employee has the given name, id and role, and an empty project list. |
| Employees.Employee.AssignProject | 01_Languages/Java/OOPConcepts.java:73-76 | The project is appended at the end of the list, and nothing else changes. The project manager's list behaves the same way (lines 121-124). |
| Employees.Employee.GetAssignedProjects | 01_Languages/Java/OOPConcepts.java:79-81 | Returns a newly allocated list holding the projects in order. Changing it cannot change the employee's list. The project manager's method is the same (lines 127-129). |
| Employees.Employee.CompleteProject | 01_Languages/Java/OOPConcepts.java:84-88 | The list loses the first occurrence of the project, or stays as it is when the project is absent. The project manager's method is the same (lines 132-136). |
| ProjectAssignment.OopConcepts.constructor | 01_Languages/Java/OOPConcepts.java:188-212 | The employee repository holds exactly DEV001 (developer "Bodheesh VC") and PM001 (project manager "Alice Johnson"), both newly created and with empty project lists. The project repository maps PROJ001, PROJ002 and PROJ003 to their names. |
| ProjectAssignment.OopConcepts.AssignmentDemo | 01_Languages/Java/OOPConcepts.java:321-342 | On a newly built object both sample assignments succeed: DEV001's list becomes ["E-commerce Platform"] and PM001's becomes ["Mobile Banking App"]. |
| ProjectAssignment.OopConcepts.SampleEmployees | 01_Languages/Java/OOPConcepts.java:196-206 | The two sample employees, stored under their ids, are newly created objects. |
| ProjectAssignment.OopConcepts.SampleProjects | 01_Languages/Java/OOPConcepts.java:209-211 | The three sample projects, stored under their ids. |
| ProjectAssignment.OopConcepts.AssignProjectToEmployee | 01_Languages/Java/OOPConcepts.java:245-272 | A missing employee is reported first, even when the project is missing too. Otherwise a missing project is reported. Either failure leaves every employee unchanged. On success the employee's list gains the project's stored name at its end. No other employee changes, and neither repository's contents change. |

## Left out

- Console output, the file save and load, `displayDevelopers`, `demonstratePointers` and `main` are left out: they are I/O.
- The statistics and the library-sort helpers are left out. They use floating point and `qsort`/`strcmp` callbacks.
- Allocation failure and freeing are left out: `safeMalloc`, `safeStringCopy`, `realloc` failing, and the free functions. Dafny's heap has neither.
- `salary` is a C `float` and is modelled as an `int`. The code only compares salaries and tests their sign, so this changes nothing for finite values. NaN salaries are not modelled.
- Record fields are C strings. They are modelled as strings that are assumed, not required, to contain no NUL character. A name such as "\0" passes `ValidateDeveloper` although C's `strlen` sees it as empty. The length bounds of the `char` fields (50, 100, 200) are not checked.
- `id`, `size` and `capacity` are unbounded integers. 32-bit overflow of the C `int` (for example, capacity doubling past 2^31) is not modelled. The only exception is `hash`, which is modelled as written in `HashAsWritten`.
- DeveloperLists.LinkedList.FindDeveloperById returns a copy of the record, not a pointer into the node. Writes through the returned pointer are not modelled.
- DeveloperHashing.HashTable.HashSearch returns a copy of the stored record in the same way.
- Linked-list nodes are immutable objects. The C code never changes a node after linking it; it only rewrites `head` and `size`.
- SalarySort.SwapDevelopers exchanges two cells of one array rather than two arbitrary pointers. `partition` in the C code swaps inline; the model calls this swap.
- SkillTokens.ProcessSkillString reads the skill string without changing it. strtok writes NUL characters into it, and the trimming loop cuts trailing spaces by writing NULs into the token.
- SkillTokens.ProcessSkillString returns the tokens as a sequence. It does not check the 50-byte slots of `result`: a token of 50 or more characters overflows its slot under `strcpy`, and that is not modelled.
- Hash tables and dynamic arrays are only built by their constructors here. `loadDevelopersFromFile` is file I/O and is not modelled.
- DynamicArrays.DynamicArray.constructor requires an initial capacity of at least 1. `createDynamicArray` accepts 0, which `loadDevelopersFromFile` passes for a file that `saveDevelopersToFile` wrote from an empty array; an array of capacity 0 is not modelled (see Findings).
- DeveloperRecords.ValidateDeveloper takes the record by value, so the NULL-pointer check at the head of `validateDeveloper` is not modelled. Its only caller in the core, `safeDeveloperInsert`, always passes the address of its own record, which is never NULL.
- The `Employee` base class and its subclasses are merged. `Developer` and `ProjectManager` keep their project lists with identical code, so one class with a `Role` tag models both.
- Salaries and `calculateSalary` (double arithmetic), the join timestamp, programming languages, `getRole` strings and `toString` are not modelled.
- Every employee is `Manageable`, so the InsufficientResources branch of `assignProjectToEmployee` cannot be reached and is not modelled. The printing in its catch blocks is left out too.
- Java `null` is not modelled. A repository never stores `null`, so `delete` answering "the id was stored" is the same as `remove(id) != null`.
- Repositories.Repository.FindAll returns the ids beside the items only as a ghost witness; `HashMap` iteration order is not modelled.
- The stream and collection demos, `processProjectAsync` (threads and futures) and the printing in `main` are left out. The two project assignments `main` makes are modelled by `AssignmentDemo`.
- The real-time chat engine is not part of this model.

## Findings

| source | as written | input that shows it | evidently intended | confidence | as-written member | corrected member |
|---|---|---|---|---|---|---|
| 01_Languages/C/data-structures-algorithms.c:208-210 | `hash` takes C's truncating `%` of a signed key and converts it to `unsigned int`. A negative key that is not a multiple of 101 gives an index of at least 2^32 - 100. `hashInsert` and `hashSearch` index `buckets` with it unchecked. | key = -1 gives index 4294967295 in a table of 101 buckets | keys are non-negative, so the index lies in [0, 101) | not executed; high | DeveloperHashing.NegativeKeyIndexesOutsideTable | DeveloperHashing.Hash |
| 01_Languages/C/data-structures-algorithms.c:145-152 | `addDeveloper` finds an array of capacity 0 full and doubles its capacity, which stays 0, so the growth check never makes room. What happens next depends on the C library. If `realloc` to 0 bytes returns NULL, the program exits through the resize-failure branch. If both allocations return non-NULL pointers, the write to `developers[0]` goes past the end of the buffer. | `createDynamicArray(0)` then `addDeveloper` (`loadDevelopersFromFile` passes the stored size, which may be 0) | growth always leaves room for the new record | not executed; medium | DynamicArrays.ZeroCapacityLeavesNoRoom | DynamicArrays.DynamicArray.AddDeveloper |
