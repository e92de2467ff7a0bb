# libwired, modelled and proved in Dafny

libwired is a C runtime: containers, reference counting, a file-tree walker and codecs. This project models
the algorithms it writes itself and proves what they promise.

| file | models |
|---|---|
| `Basics.dfy`, `Capacity.dfy`, `Slab.dfy`, `HashTable.dfy` | dictionaries: bucket chains, their slot allocator, rehashing, enumeration, equality |
| `CountedSet.dfy` | counted sets, over the same table |
| `ArrayEdits.dfy` | arrays edited by shifting pointers to slots, and index sets |
| `FtsSpec.dfy`, `Fts.dfy`, `DirectoryEnumerator.dfy` | the walk of a file graph, stated by recursion; the walker; the filter over it |
| `Ieee754.dfy` | doubles packed into eight bytes |
| `Ledger.dfy`, `Runtime.dfy` | retain counts as a ledger of references; release with its cascade, autorelease, pools |
| `Strings.dfy`, `Paths.dfy`, `Escapes.dfy`, `Numerals.dfy` | search, replace, split, join, path normalisation, escaping, decimal numbers |
| `Json.dfy`, `Url.dfy`, `Base64.dfy` | the JSON reader and writer, the URL parser and printer, base 64 |

Run `dafny verify dfyconfig.toml`; Dafny 4.11.

**Memory.** Where the source follows pointers (bucket chains, free lists, the walker's entries) memory is a
field of the object: an address is a number, and the record at it is looked up in a sequence or a map. Freeing
removes it from the map, so that every access carries the proof that the address has been allocated and not
freed; slots, which are never freed, go back to their free list. What is reached from where is stated over the
whole memory. Ghost fields say which list each chain is;
methods change memory in place as the source does, and lemmas about the values say what one assignment does to
all lists at once.

**Independent statements.** Each algorithm is proved against something that does not share its workings: maps
and multisets for the tables, a recursion over the file graph and chains of names for the walker, a recursion of its own for the enumerator, the
meaning of a bit pattern for the double codec, the count of references for the runtime, leftmost cuts for
replacement, where a path leads for normalisation, places kept for array edits.

**Where a property is not met,** the exact condition is proved, and an input that shows it: dictionary and set
equality (`LookupEqualityRight`, `EqualityRight`), splitting at a separator of several characters (`SplitIsCutExactly`),
JSON round trips (`KeyReadBackExactly`, `LaidReadBack`), URLs (`PartsReadBack`, `TextReadBack`), doubles (`ReadThenWrite`),
normalising a path twice (`NormalizedOnceExactly`), removal at an index set with repeated indexes
(`RemovedMeaningExactly`), the path under which an empty root directory is closed (`RootClosedAs`),
instances that are never freed (`LeaksExactly`).

## Model

| member | source | states |
|---|---|---|
| Capacity.CapacityBounds | libwired/base/wi-base.h:165-173 | Rounding n up to one less than a power of two gives something between n and 2n - 1, for every n from 1 on |
| Capacity.RehashRestoresWindow | libwired/collections/wi-dictionary.c:53-60 | Whatever the counts were, the bucket count one rehash chooses lies inside the load window, so that one rehash is enough |
| Capacity.InitialWindow | libwired/collections/wi-dictionary.c:326-335 | A new table holds the capacity asked for and starts inside the window |
| Slab.SlotPool.Conservation | libwired/collections/wi-dictionary.c:779-805 | In every reachable state (pages - 1) * slots per page + page cursor = slots in use + length of the free list |
| Slab.SlotPool.Refill | libwired/collections/wi-dictionary.c:782-799 | A slot enters the free list from the page cursor, or from a fresh page once the last one is used up; no other slot changes |
| Slab.SlotPool.Create | libwired/collections/wi-dictionary.c:779-805 | The slot handed out was not in use and is now; it is the head of the free list if there is one, else the next of the page cursor |
| Slab.SlotPool.Remove | libwired/collections/wi-dictionary.c:827-835 | A slot given back leaves the set in use and heads the free list; only link fields change, so a chain can still be followed through it |
| HashTable.Table.constructor | libwired/collections/wi-dictionary.c:326-335 | A new table stands for the empty map, with 11 buckets or at least as many as the capacity and less than twice as many |
| HashTable.Table.LoadBelow | libwired/collections/wi-dictionary.c:53-60 | Between two operations there are fewer than three entries a bucket, unless there are 16777213, and a table that has grown has more than one entry for three buckets |
| HashTable.Table.BucketForKey | libwired/collections/wi-dictionary.c:809-823 | The chain search finds the one bucket of the key exactly when the map has the key |
| HashTable.Table.DataForKey | libwired/collections/wi-dictionary.c:499-510 | A lookup returns what the map has under the key, or the absent value when it has none |
| HashTable.Table.SetDataForKey | libwired/collections/wi-dictionary.c:839-864 | The map becomes m[key := value] and every key sits once, in the acyclic chain of its hash, inside the load window, through any rehash |
| HashTable.Table.RemoveDataForKey | libwired/collections/wi-dictionary.c:868-895 | The map loses exactly the key, wherever in its chain the bucket stood, through any rehash |
| HashTable.Table.RemoveAllData | libwired/collections/wi-dictionary.c:899-911 | Every bucket goes to the free list and the map becomes empty, though each chain is walked while it is being freed |
| HashTable.Table.Rehash | libwired/collections/wi-dictionary.c:752-773 | Relinking every bucket in place, chain by chain, keeps the map, the slots and the count, and restores the window |
| HashTable.Table.RehashChain | libwired/collections/wi-dictionary.c:761-768 | The inner loop empties one old chain into the new ones, each bucket exactly once, while next fields are being overwritten |
| HashTable.Table.Bypass | libwired/collections/wi-dictionary.c:877-887 | Unlinking at the head, in the middle or at the end leaves the chain without exactly that bucket |
| HashTable.ChainUnlink | libwired/collections/wi-dictionary.c:877-887 | For every chain and position: moving the head or the predecessor's next yields the chain less that one bucket |
| HashTable.ChainedMove | libwired/collections/wi-dictionary.c:761-768 | Relinking one bucket disturbs no other old or new chain |
| HashTable.MoveDone | libwired/collections/wi-dictionary.c:752-773 | When the last old chain is spent, the new chains hold every key once, where it hashes to |
| HashTable.Table.SlotConservation | libwired/collections/wi-dictionary.c:779-837 | What the page cursor has handed out is exactly the entries and the free list |
| HashTable.Table.Replay | libwired/collections/wi-dictionary.c:752-911 | Over every run of set, remove and remove-all, with the rehashes they trigger, the table ends up as the map the same run builds, slots are conserved, and there are fewer than three entries a bucket |
| HashTable.Table.Next | libwired/collections/wi-dictionary.c:672-703 | One step of the resumable enumerator returns the first bucket still pending and leaves exactly the others pending |
| HashTable.Table.Entries | libwired/collections/wi-dictionary.c:672-733 | Run to its end over an unmodified table the enumerator visits every entry of the map exactly once |
| HashTable.FlatPlaced | libwired/collections/wi-dictionary.c:672-703 | Read off chain by chain, the buckets are those of the keys, each once |
| HashTable.Table.IsEqual | libwired/collections/wi-dictionary.c:422-442 | Decides equal size and, for each key here, equality with what a lookup there returns |
| HashTable.LookupEquality | libwired/collections/wi-dictionary.c:422-442 | For two given dictionaries that decision is map equality if and only if the other side has every key, which it is sure to have where no value is NULL |
| HashTable.LookupEqualityRight | libwired/collections/wi-dictionary.c:422-442 | Given a key not in the dictionary, the decision is right against every other dictionary if and only if no value in it is NULL |
| HashTable.NullConfusesEquality | libwired/collections/wi-dictionary.c:422-442 | With NULL values it fails: {0: NULL} and {1: v} pass for equal |
| HashTable.Table.Copy | libwired/collections/wi-dictionary.c:380-394 | The copy is a table of its own that stands for the same map |
| CountedSet.AddData | libwired/collections/wi-set.c:562-582 | Adds one occurrence of the element to the multiset, whether or not it was there |
| CountedSet.RemoveData | libwired/collections/wi-set.c:686-731 | Removes one occurrence from a counted set, all of them from another, and drops the bucket with the last |
| CountedSet.CountForData | libwired/collections/wi-set.c:627-638 | Returns the multiplicity of the element in the multiset |
| CountedSet.DistinctElements | libwired/collections/wi-set.c:387-389 | data_count is the number of distinct elements |
| CountedSet.Copy | libwired/collections/wi-set.c:305-320 | Re-adding every element as often as it is held, into a table of another size, yields the same multiset |
| CountedSet.AddToBag | libwired/collections/wi-set.c:562-582 | Raising an element's count by one adds exactly that element to the multiset the counts stand for |
| CountedSet.RemoveFromBag | libwired/collections/wi-set.c:686-731 | Lowering it by one, or dropping it at one, removes exactly one occurrence |
| CountedSet.TotalFlat | libwired/collections/wi-set.c:305-320 | The buckets of all chains add up to the multiset |
| CountedSet.IsEqual | libwired/collections/wi-set.c:324-341 | Two sets pass for equal if and only if they hold the same elements, however often |
| CountedSet.EqualityRight | libwired/collections/wi-set.c:324-341 | That is multiset equality against every other set if and only if the set is empty |
| CountedSet.EqualityOfOnes | libwired/collections/wi-set.c:324-341 | Where no element is held twice it is |
| CountedSet.CountsNotCompared | libwired/collections/wi-set.c:324-341 | One x and two pass for equal |
| CountedSet.Replay | libwired/collections/wi-set.c:562-731 | Over every run of additions and removals, with the rehashes they trigger, the set ends up as the multiset the same run builds, and slots are conserved |
| FtsSpec.VisitDepth | libwired/compat/wi-fts.c:825-890 | Below any entry no event lies deeper than there are directories not among its ancestors, links and their cycles notwithstanding |
| FtsSpec.WalkDepth | libwired/compat/wi-fts.c:825-890 | No event of a whole walk lies deeper than there are directories |
| FtsSpec.WalkBracketed | libwired/compat/wi-fts.c:295-479 | Each D is closed once by DP or DNR, properly nested, every path in between being its directory's path joined with its name |
| FtsSpec.WalkMeets | libwired/compat/wi-fts.c:295-479 | The entries first met below a root are exactly the paths that chains of listed names lead to through directories that are neither skipped, unreadable nor their own ancestors; each is met once if no directory lists a name twice |
| FtsSpec.WalkKinds | libwired/compat/wi-fts.c:825-890 | Every event but the second of a directory has the kind that stat of its path dictates: F exactly for a regular file, NS, SLNONE, SL and DEFAULT likewise, and for a directory DC exactly if it is one of those opened and not yet closed at that point of the events, else D |
| FtsSpec.PathDownIs | libwired/compat/wi-fts.c:580-821 | A chain of names leads to the path with a slash and a name for each, a trailing slash of the root serving for the first |
| FtsSpec.BasenameIs | libwired/compat/wi-fts.c:217-237 | A root is called by what stands behind its last slash, and "/" by itself |
| FtsSpec.RootClosedAs | libwired/compat/wi-fts.c:580-821 | A root directory is closed under a path other than its own if and only if it ends in a slash, was not skipped, could be read and is empty |
| FtsSpec.EmptyRootClosed | libwired/compat/wi-fts.c:580-821 | So an empty "/" is closed under the empty path |
| Fts.Fts.Open | libwired/compat/wi-fts.c:111-213 | Fails, with all it allocated freed, if and only if some root path is empty; otherwise owes exactly the walk of its roots, for every skip policy; without any roots its dummy entry has neither link nor parent |
| Fts.Fts.AddRoot | libwired/compat/wi-fts.c:150-185 | Stats one root and links it last |
| Fts.Fts.FreeList | libwired/compat/wi-fts.c:960-968 | Frees each entry of a list once and nothing else |
| Fts.Fts.StatEnt | libwired/compat/wi-fts.c:825-890 | Says what kind of entry it is, as stat dictates, and DC if and only if the directory is one of the ancestors up to the root, following parent links |
| Fts.Fts.ReadNames | libwired/compat/wi-fts.c:580-821 | Reads a directory into a list of entries, one for each name but dots, in order, each stat'ed under its joined path |
| Fts.Fts.Build | libwired/compat/wi-fts.c:580-821 | An unreadable directory becomes DNR and an empty one DP in place; otherwise the list of its entries is returned and the path buffer made ready |
| Fts.Fts.Enter | libwired/compat/wi-fts.c:338-387 | Going into the current directory yields its first entry, or closes it at once, and owes what the walk has next |
| Fts.Fts.Next | libwired/compat/wi-fts.c:390-479 | Moving on frees the current entry and yields its sibling, its parent's second visit or the end, as the walk has it |
| Fts.Fts.Read | libwired/compat/wi-fts.c:295-479 | Each call returns the next event of the walk, under the skip instructions given so far, the path buffer holding its path; after the last one nothing is left allocated |
| Fts.Fts.Skip | libwired/compat/wi-fts.c:489-497 | Sets the skip instruction on the current entry and changes nothing else |
| Fts.Fts.Close | libwired/compat/wi-fts.c:241-283 | From any point of a walk frees every entry left exactly once, none being touched after it was freed |
| Fts.Traverse | libwired/compat/wi-fts.c:295-479 | Reading to the end yields exactly the pre- and post-order walk, each event of the kind stat dictates, for all file graphs, roots and skip policies, and terminates |
| Fts.DescentDistinct | libwired/compat/wi-fts.c:825-890 | At every moment of a walk the directories on the path descended differ in device and inode, and are at most as many as there are directories |
| Fts.FutureEntered | libwired/compat/wi-fts.c:380-431 | What is owed on entering a directory is its first entry, then the rest of its contents, then its second event |
| Fts.FutureNext | libwired/compat/wi-fts.c:390-431 | What is owed past an entry begins with its next sibling |
| Fts.FutureUp | libwired/compat/wi-fts.c:434-479 | What is owed past the last sibling begins with the second event of the directory |
| Fts.CloseStep | libwired/compat/wi-fts.c:253-261 | Whatever link or parent the closing loop follows leads to an entry not yet freed |
| DirectoryEnumerator.WalkShows | libwired/file/wi-directory-enumerator.c:108-148 | The filter over the walk lists what an independent recursion over the file system lists: not the root, nothing hidden, cycles and unreadable directories as errors |
| DirectoryEnumerator.ShowOnce | libwired/file/wi-directory-enumerator.c:108-148 | No path is reported twice, and no error, if no directory lists a name twice |
| DirectoryEnumerator.ShowExactly | libwired/file/wi-directory-enumerator.c:108-148 | Reported is exactly what chains of visible names lead to, through directories that are readable, unpruned and not their own ancestors: a path, or an error for a directory met again among its ancestors or one that cannot be read |
| DirectoryEnumerator.ErrorsAreDirectories | libwired/file/wi-directory-enumerator.c:118-131 | Only a directory is ever reported as an error: a file is a path |
| DirectoryEnumerator.ShowVisible | libwired/file/wi-directory-enumerator.c:108-148 | No path reported has a component beginning with a dot below the root |
| DirectoryEnumerator.Enumerator.InitWithPath | libwired/file/wi-directory-enumerator.c:76-93 | Succeeds if and only if the path is not empty and names something; otherwise everything is freed |
| DirectoryEnumerator.Enumerator.GetNextPath | libwired/file/wi-directory-enumerator.c:108-148 | Returns the next of the entries still to be listed, or the end if there is none |
| DirectoryEnumerator.Enumerator.SkipDescendents | libwired/file/wi-directory-enumerator.c:152-155 | Sets the skip instruction and leaves what was reported as it was |
| DirectoryEnumerator.Enumerator.Dealloc | libwired/file/wi-directory-enumerator.c:97-102 | Wherever the enumeration has come to, nothing is left allocated |
| DirectoryEnumerator.List | libwired/file/wi-directory-enumerator.c:108-148 | A whole enumeration, with any pruning by its caller, lists what the recursion lists, which is exactly what the chains lead to |
| Ieee754.FrexpParts | libwired/base/wi-byteorder.c:147-147 | The exponent and fraction split the number exactly, the fraction lying in [0.5, 1) |
| Ieee754.MagnitudeOrder | libwired/base/wi-byteorder.c:84-124 | Bit patterns are ordered as the numbers they stand for |
| Ieee754.MeaningInjective | libwired/base/wi-byteorder.c:84-124 | No two patterns mean the same, the zeros and NaNs excepted |
| Ieee754.BitsAre | libwired/base/wi-byteorder.c:84-98 | The eight bytes, taken as one number in base 256 with the first byte most significant, are sign * 2^63 + exponent * 2^52 + fraction |
| Ieee754.PiBytes | libwired/base/wi-byteorder.c:84-124 | 40 09 21 FB 54 44 2D 18 is the double nearest to pi |
| Ieee754.OneBytes | libwired/base/wi-byteorder.c:180-190 | Only 3F F0 00 00 00 00 00 00 means one |
| Ieee754.NormalParts | libwired/base/wi-byteorder.c:171-178 | For every normal number frexp gives its biased exponent less 1022 and 21 bits of significand before the point |
| Ieee754.DenormalParts | libwired/base/wi-byteorder.c:151-170 | For every denormal the shifts place its fraction across the two words, and the flush to zero is never taken |
| Ieee754.ReadDouble | libwired/base/wi-byteorder.c:84-124 | The sum of two scaled words is what IEEE 754-2008 section 3.4 says the eight bytes mean as one number, the first byte most significant; NaNs become infinities |
| Ieee754.Encode | libwired/base/wi-byteorder.c:128-180 | The two words mean exactly the value, normal or denormal, and are never minus zero |
| Ieee754.WriteDouble | libwired/base/wi-byteorder.c:128-190 | Fills eight bytes that mean the value as one number, the first byte most significant, and leaves the rest of the buffer alone |
| Ieee754.WriteThenRead | libwired/base/wi-byteorder.c:84-190 | read(write(v)) = v for every double but NaN, which becomes an infinity |
| Ieee754.ReadThenWrite | libwired/base/wi-byteorder.c:84-190 | write(read(b)) = b for eight bytes b if and only if b is neither a NaN nor minus zero |
| Ieee754.PatternsLost | libwired/base/wi-byteorder.c:84-190 | Minus zero means what zero does, and a pattern with all exponent bits and a fraction is a NaN: those two are rewritten |
| Ledger.BalanceRelease | libwired/base/wi-runtime.c:289-300 | Giving up one reference keeps every retain count equal to the references held |
| Ledger.DeathStep | libwired/base/wi-runtime.c:300-318 | At the last release the instance keeps the references it holds, its dealloc is under way, and the ledger still balances |
| Ledger.DeallocStep | libwired/base/wi-runtime.c:315-316 | Each reference a dealloc reads from the instance becomes one to be released, and there are fewer left |
| Ledger.FreeStep | libwired/base/wi-runtime.c:318-322 | When its dealloc has released all, nothing refers to the instance, so that it may be freed |
| Ledger.DeadExactly | libwired/base/wi-runtime.c:289-327 | A cascade frees exactly what neither the outside, nor a pool, nor a surviving instance refers to any more |
| Ledger.NoDangling | libwired/base/wi-runtime.c:289-327 | No live instance holds a reference to a freed one |
| Ledger.TracedBack | libwired/base/wi-runtime.c:259-327 | Without ownership circles every live instance is reached from an outside or pooled reference |
| Ledger.NothingLeaks | libwired/base/wi-runtime.c:259-327 | Without ownership circles, once nothing is held outside or pending, nothing is left allocated |
| Ledger.LeaksExactly | libwired/base/wi-runtime.c:259-327 | Once nothing is held outside or pending, something is left allocated if and only if instances own each other in a circle |
| Ledger.CircleLeaks | libwired/base/wi-runtime.c:259-327 | With a circle that fails: two instances that own each other stay for good |
| Runtime.Runtime.CreateInstance | libwired/base/wi-runtime.c:121-135 | A new instance with one reference, held by the caller |
| Runtime.Runtime.Retain | libwired/base/wi-runtime.c:259-273 | Raises one count by one against one more outside reference; NULL is passed through |
| Runtime.Runtime.Release | libwired/base/wi-runtime.c:289-327 | Lowers the count; at zero, and only then, the instance dies, its references are released in turn and the ledger balances after the whole cascade, which terminates |
| Runtime.Runtime.Destroy | libwired/base/wi-runtime.c:300-322 | An instance whose count has come down to zero is freed after its dealloc has run, and by nothing else |
| Runtime.Runtime.Dealloc | libwired/base/wi-runtime.c:315-318 | Every reference the dying instance holds is read from it and released once, in order, whole cascades running in between |
| Runtime.Runtime.Adopt | libwired/collections/wi-array.c:780-787 | Handing a reference to an owner keeps the ledger balanced |
| Runtime.Runtime.Abandon | libwired/collections/wi-array.c:726-732 | Taking one from an owner releases it once |
| Runtime.Runtime.Autorelease | libwired/base/wi-pool.c:321-369 | The caller's reference becomes one entry of the top pool, in an array with room or a new one; without a pool it stays as it is |
| Runtime.Runtime.InitPool | libwired/base/wi-pool.c:143-193 | A new empty pool on top of the stack, which has been grown to hold it |
| Runtime.Runtime.Drain | libwired/base/wi-pool.c:210-237 | Every entry of the pool is released exactly once, no outside reference is, and the ledger balances |
| Runtime.Runtime.ReleasePool | libwired/base/wi-pool.c:156-271 | Releasing the top pool drains it and takes it off the stack |
| Strings.StrNStr | libwired/compat/wi-compat.c:143-163 | Returns the first occurrence that lies wholly within the first slen characters, or none if there is none |
| Strings.MutableString.IndexOfStringInRange | libwired/data/wi-string.c:1015-1061 | The first occurrence within the range; none in an empty range |
| Strings.MutableString.ReplaceCharactersInRange | libwired/data/wi-string.c:1586-1592 | Deleting and inserting replaces exactly the range |
| Strings.MutableString.ReplaceNext | libwired/data/wi-string.c:1603-1608 | One turn replaces the first occurrence left and goes on behind it; for an empty target it leaves as much to search as before, so that the loop never ends |
| Strings.MutableString.ReplaceString | libwired/data/wi-string.c:1596-1609 | Terminates for every non-empty target and yields leftmost non-overlapping replacement, inserted text never searched |
| Strings.ReplacedPieces | libwired/data/wi-string.c:1596-1609 | The text is its pieces joined by the target and the result the same pieces joined by the replacement, cut at the leftmost occurrences |
| Strings.CutUnique | libwired/data/wi-string.c:1596-1609 | There is only one such cut |
| Strings.StrSep | libwired/compat/wi-compat.c:75-102 | Writes a terminator over the first delimiter, so that the token is what stands before it and the rest what stands behind |
| Strings.ComponentsSeparatedBy | libwired/data/wi-string.c:960-982 | Collects the pieces between all characters of the separator |
| Strings.ComponentsJoined | libwired/collections/wi-array.c:519-544 | The pieces with the separator between them |
| Strings.JoinSplit | libwired/data/wi-string.c:960-982 | Joining the pieces of a split gives the text back |
| Strings.SplitJoinExactly | libwired/data/wi-string.c:960-982 | Splitting undoes joining if and only if there is a piece and none contains the separator |
| Strings.SplitIsCutExactly | libwired/data/wi-string.c:960-982 | Splitting is at each character of the separator: the same as splitting at the separator if and only if it is one character or none of its characters occurs |
| Strings.SpaceSeparatesToo | libwired/data/wi-string.c:960-982 | "a, b" split at ", " has an empty component |
| Paths.PathComponents | libwired/data/wi-string.c:1156-1175 | The non-empty pieces between slashes, and a leading slash |
| Paths.ComponentsOfNames | libwired/data/wi-string.c:1156-1175 | Names joined by slashes have those components, behind a leading slash "/" as well; the empty path has "/" |
| Paths.ExpandTilde | libwired/data/wi-string.c:1729-1760 | A leading "~" or "~user" gives way to the home directory, if there is such a user, and nothing else changes |
| Paths.TildeLeadsHome | libwired/data/wi-string.c:1667-1760 | A path with a known tilde leads where the rest of it leads from the home directory |
| Paths.NormalizePath | libwired/data/wi-string.c:1667-1714 | After the tilde, taking components out in place, the unsigned index wrapping below zero and back, terminates and keeps each component that is not dropped or cancelled |
| Paths.MeaningKept | libwired/data/wi-string.c:1667-1714 | A path and its normal form lead to the same place from every directory, ".." at the root staying there |
| Paths.NormalForm | libwired/data/wi-string.c:1667-1714 | The normal form has no empty or "." component, and ".." only first if it is absolute |
| Paths.Idempotent | libwired/data/wi-string.c:1680-1713 | Behind the expansion of the tilde, normalising twice is normalising once, for every path |
| Paths.TildeUncovered | libwired/data/wi-string.c:1680-1713 | A normal form begins with a tilde if and only if the path is relative and its first component that is neither empty nor "." does |
| Paths.NormalizedOnceExactly | libwired/data/wi-string.c:1667-1760 | With the expansion, normalising twice is normalising once unless that component names a user; where home directories are absolute, if and only if it does not |
| Paths.UserUncovered | libwired/data/wi-string.c:1667-1760 | "./~r" becomes "~r", and that the home directory of r |
| Paths.StepResolve | libwired/data/wi-string.c:1693-1706 | Cancelling ".." against the component before it never changes where the path leads |
| Escapes.JsonPasses | libwired/parsers/wi-json.c:470-479 | Escaping backslashes and then quotes is one substitution of every character at once |
| Escapes.XmlPasses | libwired/parsers/wi-plist.c:350-362 | Escaping &, < and > in turn is one substitution of every character at once |
| Escapes.EscapeJson | libwired/parsers/wi-json.c:470-479 | The writer's two passes over a copy compute it |
| Escapes.EscapeXml | libwired/parsers/wi-plist.c:350-362 | The three passes over a copy compute it |
| Escapes.XmlRoundTrip | libwired/parsers/wi-plist.c:350-362 | The result holds no < or >, and resolving its entities gives the text back |
| Json.QuotedStringForString | libwired/parsers/wi-json.c:290-337 | The text of a quoted string and the count of characters to skip, or failure at an unknown escape |
| Json.EscapedReadBack | libwired/parsers/wi-json.c:290-337 | Reading any escaped text, whatever follows it, returns the text and a count that lands on the closing quote |
| Json.KeyReadBackExactly | libwired/parsers/wi-json.c:443-445 | A key, written unescaped, reads back if and only if it has neither quote nor backslash |
| Json.QuoteCutsKey | libwired/parsers/wi-json.c:443-445 | The key a"b reads back as a |
| Json.InstanceForString | libwired/parsers/wi-json.c:67-254 | The loop over mutable container, key and position computes the run that the theorems below are about |
| Json.WrittenText | libwired/parsers/wi-json.c:399-468 | What the writer writes is the text of the value with a space behind each comma |
| Json.RunSkip | libwired/parsers/wi-json.c:80-237 | Any character that begins nothing is passed over, line breaks among them |
| Json.RunValue | libwired/parsers/wi-json.c:67-254 | From any state, what the reader does with the text of any value, arrays and dictionaries nested however deep and white space anywhere between the tokens: a string is a key where there is none, a container is left again at its bracket, and after a bare value one character is lost |
| Json.RunEntries | libwired/parsers/wi-json.c:67-254 | The same for the entries of a dictionary: each is stored where the remembered containers put it |
| Json.RunElements | libwired/parsers/wi-json.c:67-254 | The same for the elements of an array |
| Json.LaidReadBack | libwired/parsers/wi-json.c:67-254 | A text of a dictionary whose arrays are flat, nested however deep and with any white space between its tokens, reads as that dictionary, array elements in order, if and only if no integer is negative (the least one excepted) and, in each dictionary, every value but the last lets the reader back: it holds no container if it is a dictionary, and does not end with a number, a boolean or null directly before its bracket |
| Json.TightReadBack | libwired/parsers/wi-json.c:67-254 | With no white space directly before brackets any such text is read as the written one is |
| Json.ReadBackExactly | libwired/parsers/wi-json.c:67-479 | The written text reads back under the same condition, no white space standing before its brackets |
| Json.GoodReadBack | libwired/parsers/wi-json.c:67-479 | Where the reader finds its way back, the integers alone decide |
| Json.BraceSwallowed | libwired/parsers/wi-json.c:67-479 | {"a":{"b":1}, "c":2} does not read back |
| Json.BraceSeen | libwired/parsers/wi-json.c:67-254 | With white space behind the 1 it does |
| Json.BracketSwallowed | libwired/parsers/wi-json.c:67-479 | {"a":[1], "b":["x"]} does not |
| Json.DictionaryInArrayLost | libwired/parsers/wi-json.c:85-113 | {"l":[{"a":"b"}]} does not: entering a dictionary in an array does not forget the key |
| Json.ArraysReadBack | libwired/parsers/wi-json.c:67-479 | Dictionaries of flat arrays read back, each element in its place, if and only if no integer is negative and no array but the last ends with a number, a boolean or null |
| Json.SignSkipped | libwired/parsers/wi-json.c:67-479 | {"n":-1} does not |
| Json.TwoLevelsReadBack | libwired/parsers/wi-json.c:67-479 | Two levels deep the condition is that no dictionary or array but the last value ends with a number, a boolean or null |
| Json.StringsReadBack | libwired/parsers/wi-json.c:67-479 | Dictionaries of strings, of arrays of strings and of dictionaries of strings always read back |
| Json.FlatReadBack | libwired/parsers/wi-json.c:67-479 | So do flat dictionaries of strings, non-negative integers, booleans and null |
| Json.ValueForKeyFails | libwired/parsers/wi-json.c:85-235 | Anything but a string where a key should stand fails |
| Json.UnknownEscapeFails | libwired/parsers/wi-json.c:290-337 | So does a string with an unknown escape |
| Json.UnknownWordFails | libwired/parsers/wi-json.c:195-204 | So does a word that begins as true or false and is neither |
| Json.EmptiesTaken | libwired/parsers/wi-json.c:109-111 | Containers in an array are put into it in the order in which they stand |
| Json.RunFloat | libwired/parsers/wi-json.c:158-173 | A number with a point is kept as its digits |
| Json.TopStays | libwired/parsers/wi-json.c:116-119 | The first container is the one returned, whatever follows it |
| Numerals.DecimalRead | libwired/data/wi-string.c:1376-1391 | A number printed in decimal reads back up to the width of the type, and as zero beyond it |
| Numerals.SignedRead | libwired/data/wi-string.c:1376-1391 | So does it behind a space or a plus sign; behind a minus it reads as its complement in 64 bits, or as zero where that does not fit |
| Numerals.FirstCharacter | libwired/data/wi-string.c:1376-1391 | Space of every kind before a number is skipped; a text that begins with anything but space, a sign or a figure reads as zero |
| Numerals.Bases | libwired/data/wi-string.c:1376-1391 | "0x" makes a number hexadecimal, a leading "0" octal; anything behind the digits makes it zero |
| Url.Url.RegenerateString | libwired/data/wi-url.c:267-293 | Prints the parts there are, a host with a colon in brackets |
| Url.Url.InitWithString | libwired/data/wi-url.c:126-193 | Narrowing the text part by part recovers the parts it is made of, with a scheme or without and with a path or without, and prints them again |
| Url.PartsReadBack | libwired/data/wi-url.c:126-293 | Parsing a printed URL recovers every part if and only if they can be told apart in print and the port fits 32 bits; past them only the port is lost |
| Url.TextReadBack | libwired/data/wi-url.c:126-188 | Whichever of scheme and path a text has, it is taken apart into the parts it is made of if and only if they can be told apart and the port fits 32 bits; a scheme alone leaves the rest unset |
| Url.FourShapes | libwired/data/wi-url.c:126-188 | Scheme, authority and path; no path; no scheme; the scheme alone |
| Url.WithoutPath | libwired/data/wi-url.c:126-188 | "wired://u@localhost:2000" has user, host and port and no path |
| Url.ColonHostRead | libwired/data/wi-url.c:178-188 | A host outside brackets that ends with a colon, or has two, is taken as it stands |
| Url.UserShapes | libwired/data/wi-url.c:152-168 | Before the first at sign stand a user, which may be empty, and behind its first colon a password; a colon at the end belongs to the user |
| Url.PrintedText | libwired/data/wi-url.c:267-293 | A URL with everything in it prints as "wired://u:w@[::1]:2000/x" |
| Url.WellFormedRead | libwired/data/wi-url.c:126-293 | Parts that can be told apart: every field is recovered |
| Url.PortLost | libwired/data/wi-url.c:126-293 | Port 2^32 reads back as none |
| Url.EmptyUserLost | libwired/data/wi-url.c:267-293 | An empty user never reads back |
| Base64.StringFromData | libwired/crypto/wi-base64.c:32-81 | Masks and shifts over three bytes at a time yield the encoding of RFC 4648 section 4 |
| Base64.MasksAreSixes | libwired/crypto/wi-base64.c:55-58 | They pick out the four groups of six bits |
| Base64.SymbolIs | libwired/crypto/wi-base64.c:33-34 | The encoder's symbols are those of the alphabet, in its order |
| Base64.ValueExactly | libwired/crypto/wi-base64.c:103-116 | The decoder takes a character for x if and only if it is the x-th of the alphabet, for padding if and only if it is "=", and passes over every other |
| Base64.DataFromString | libwired/crypto/wi-base64.c:85-154 | The loop with its buffer decodes the symbols up to the first padding |
| Base64.EncodedLength | libwired/crypto/wi-base64.c:32-81 | The encoding has 4 * ceil(n / 3) characters |
| Base64.RoundTrip | libwired/crypto/wi-base64.c:32-154 | decode(encode(x)) = x for every byte string |
| Base64.WrappedRoundTrip | libwired/crypto/wi-base64.c:32-154 | So does decoding an encoding with line breaks put in anywhere |
| Base64.Vectors | libwired/crypto/wi-base64.c:32-81 | "f", "fo" and "foobar" are encoded as RFC 4648 section 10 has them |
| Base64.DecodedLength | libwired/crypto/wi-base64.c:118-149 | Four symbols give three bytes; a rest gives none without padding |
| Base64.OthersIgnored | libwired/crypto/wi-base64.c:85-154 | Characters that are neither in the alphabet nor "=", inserted anywhere, change nothing |
| ArrayEdits.InsertedMeaning | libwired/collections/wi-array.c:885-900 | Inserting at ascending indexes puts the k-th datum at the k-th index and keeps the rest in order |
| ArrayEdits.RemovedMeaning | libwired/collections/wi-array.c:992-1008 | Removing with the running offset leaves out exactly the places of the index set |
| ArrayEdits.RemovedMeaningExactly | libwired/collections/wi-array.c:992-1008 | For indexes in order, that is so if and only if none stands twice |
| ArrayEdits.TwiceTakesBoth | libwired/collections/wi-array.c:992-1008 | Index 2 given twice takes away the data at 1 and 2 |
| ArrayEdits.InsertThenRemove | libwired/collections/wi-array.c:885-1008 | Removing at the index set just inserted at restores the array |
| ArrayEdits.MutableArray.AddData | libwired/collections/wi-array.c:780-787 | Appends the datum |
| ArrayEdits.MutableArray.InsertDataAtIndex | libwired/collections/wi-array.c:859-881 | The datum at the index, those from there on one further up, growing the buffer if it is full |
| ArrayEdits.MutableArray.RemoveDataAtIndex | libwired/collections/wi-array.c:969-988 | The array without that datum, its slot on the free list, and the buffer less than three times the data or at its least |
| ArrayEdits.MutableArray.InsertDataFromArrayAtIndexes | libwired/collections/wi-array.c:885-900 | The insertions one after the other |
| ArrayEdits.MutableArray.RemoveDataAtIndexes | libwired/collections/wi-array.c:992-1008 | The removals one after the other, each index less those before it |
| ArrayEdits.MutableArray.AddDataSorted | libwired/collections/wi-array.c:746-762 | The datum goes before the first one it comes before |
| ArrayEdits.MutableArray.SlotConservation | libwired/collections/wi-array.c:696-732 | What the page cursor has handed out holds a datum or is on the free list |
| ArrayEdits.AddedInOrder | libwired/collections/wi-indexset.c:301-305 | Adding an index keeps the list ascending and loses nothing; strictly ascending if and only if it was and the index is new |
| ArrayEdits.IndexSet.AddIndex | libwired/collections/wi-indexset.c:301-305 | The same, of the index set itself |

## Left out

- Dictionaries and sets: keys are compared by `==` and hashed by a function; retain and release callbacks, sorting and descriptions are not modelled.
- Tables beyond 2^30 entries, where the shift in `wi_exp2m1` leaves the width of an `int`; arrays beyond 16777213 items.
- Slots are numbered in the order they are handed out; that a page is one block of `malloc` is not used.
- Files: the file system does not change during a walk. Options other than `WI_FTS_LOGICAL | WI_FTS_NOSTAT`, hence changing directory and crossing mount points; the AGAIN and FOLLOW instructions, `wi_fts_children`, instructions set on entries other than the current one, sorting, failing allocation, and the capacity of the path buffer. Error numbers are zero or one.
- Fts.Traverse: asks for at least one root, because the source, reading a stream opened without any, follows the NULL parent of its dummy entry.
- Doubles: frexp, ldexp and floor are exact. A Dafny real has one zero, so that minus zero is known by its bytes only.
- Runtime: locks, zombies, wrap-around of the 16-bit count, debugging of pools. A pool is known by its place on the stack and not retained. What a dealloc has released is no longer counted as held by the dying instance, though the source leaves the pointer where it is; no deallocation callback autoreleases into the pool being drained.
- Runtime.Runtime.Retain: asks for a live instance, which the source asserts.
- Strings: no NUL inside; capacity, encodings, case-insensitive and backwards search and symbolic links. The home directories that `getpwnam` and `getpwuid` know are a parameter. Replacing an empty target in a text does not end (`ReplaceNext`), so `ReplaceString` asks for one that is not empty.
- Floating-point numbers and `\u` escapes in JSON are read without a claim about their value; signed numbers (`wi_string_int32`, `wi_string_int64`) are not modelled. Of JSON arrays that hold containers the model says what the reader does (`RunValue`), without a condition for their round trip; the order in which keys are written is any.
- Json.InstanceForString: where the source goes on with a length it has not set, past the end of a string or through NULL, the model stops with `Unset`.
- Base64.DataFromString: a single symbol before padding is completed by whatever the uninitialised or used buffer held.
- `wi_mutable_array_replace_data_from_array_at_indexes`, which indexes its source array by the target index, and setting an array from itself.
- Sockets, hosts, processes, tasks, files, logging, regular expressions, iconv, XML parsing and the wrapped cryptography; dates, UUIDs and printf formatting.
