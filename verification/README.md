# Verified model of the fcitx-ng utility layer

This project models, in Dafny, the algorithms under fcitx-ng's frontends: the intrusive list and its
sort, the hash index and the dictionary on it, the object pool and the handler table on that, the
timeout part of the main loop, UTF-8, escaping, searching and replacing in strings, the configuration
tree with its INI printer and parser, the array sorts, the chunk allocator and the addon loader.
`dafny verify dfyconfig.toml` checks everything.

Code that changes things in place is modelled in place: list nodes, hash handles, buckets, pools,
handler objects, configuration nodes and addons are objects or arrays, and each method is proved
against a function or a relation on values, about which the lemmas then speak.

| files | what they model |
|---|---|
| `List`, `StableOrder` | `list.h`, `list.c`; stable sorting in general, shared by the three merge sorts |
| `Bits`, `HashHandle`, `HashChains`, `HashIndex` | the macros of `uthash.h`, expanded into the methods of a class |
| `BottomUpSort`, `HashSort` | `HASH_SRT`, on values and on the linked items |
| `Dict` | `dict.c`, refining a map with an insertion order |
| `ObjPool`, `HandlerTable` | `objpool.c`, `handler-table.c` |
| `Timeouts`, `TimeoutLaws`, `TimeoutFates`, `TimeoutRequests`, `MainLoop` | a timeout pass as it is meant; its safety, what becomes of each event, what is done of what callbacks ask for; and the code of `mainloop.c` that refines it |
| `Utf8`, `Utf8Strict`, `UnicodeLaws`, `Utf8Strings`, `Utf8Laws` | `utf8.c`: characters, the strict decoder, code points as numbers, whole strings, the forms in ordinary arithmetic |
| `Escape`, `EscapeLaws`, `BackwardSearch`, `StringReplace`, `ReplaceLaws`, `ReplaceDiff` | `stringutils.c`; `ReplaceLaws`: what replacing finds and means; `ReplaceDiff`: what replacing one character goes wrong about |
| `ConfigTree`, `Configuration`, `PathBuffer` | `configuration.c`: the tree as a value, the nodes in memory, the path buffer |
| `IniValue`, `IniMisprint`, `IniLine`, `IniParser`, `IniLaws`, `IniRoundTrip` | `iniparser.c`: values, those printed wrongly, lines, printing and parsing, what both mean letter by letter, and both together |
| `ArraySort` | `msort_r.c`, `qsort_r.c`, `sort_common.h` |
| `MemoryPool` | `memory-pool.c` |
| `AddonOrder`, `Addon` | the load and unload loops of `addon.c`, on values and on objects |
| `Seqs`, `Wrappers` | sequences; optional results |

How the outside appears:

- Comparators are functions to `int`. Sortedness and stability are claimed for total preorders of the
  elements at hand, permutation and termination for any comparator.
- The hash function is any fixed function from keys to 32-bit words. A callback of the main loop is any
  sequence of permitted operations per call; the allocator hands out any free address, used ones again
  included; clocks are parameters. What `malloc` returns in the memory pool, and whether the scratch
  buffer of the merge sort can be had, are parameters too.
- `destroyNotify`, `free_func`, `free` and an addon's destroy function are recorded in a log.
- C strings are sequences without NUL; where a buffer bound is claimed, the buffer is an array.

Where the code does not do the obvious thing, the code is followed:

- Growing an object pool needs an old capacity of at least two (`ObjPool.GrowthFits`), and the offset
  of an id is kept in 32 bits (`ObjPool.OffsetIsHonest`, `ObjPool.WrappedIdIsFreed`).
- The encoder and the decoder of `utf8.c` disagree about five byte forms, so the round trip holds
  exactly outside the band from 2^26 to 2^27 (`Utf8.RoundTrip`).
- `fcitx_utils_string_replace` copies the wrong text between two occurrences of one batch.
  `StringReplace` has the code as it is and says exactly when it replaces every occurrence; the INI
  printer runs it. The round trip is proved of the printing as it is meant, for all well-formed trees
  (`IniRoundTrip.PrintParse`), and of the code for those trees whose values it prints well
  (`IniRoundTrip.SaveAndLoad`). Where at most one of the replaced characters occurs more than once in a
  value, the code prints it well in no other case (`IniMisprint.PrintsWellExactly`).
- `fcitx_configuration_foreach` writes to a null buffer when the first name is empty and there is no
  path. The first two passes of the printer have no path at any node, so a tree can be printed exactly
  if every node's first sub-item has a name (`IniParser.PrintableExactly`).
- A value in quotes without a blank is printed without further quotes and loses its own
  (`IniValue.ValueRoundTrip`).
- `_unescape_string` writes one byte behind the terminator exactly of the strings without a backslash
  (`IniParser.WritesBehind`); for those the buffer is required to have it.
- A load pass asks for another one only when it disables an addon with an unknown dependency, so the
  load takes at most two passes and leaves out addons that stand in front of their dependencies
  (`AddonOrder.LoadedExactly`).

## Model

| member | source | states |
|---|---|---|
| List.InsertBetween | src/lib/fcitx-utils/list.h:50-56 | the new node lands between two neighbours of a ring, and the ring reads the same both ways with it in place |
| List.Remove | src/lib/fcitx-utils/list.h:68-77 | exactly the chosen node leaves; what is left is a ring in the same order |
| List.SortedMerge | src/lib/fcitx-utils/list.c:28-53 | relinking two disjoint chains gives the chain of their stable merge, with mirrored links and the right last node, whatever the comparator |
| List.Middle | src/lib/fcitx-utils/list.c:72-82 | the slow pointer stops so that both halves are non-empty and strictly shorter, which is why the recursion ends |
| List.Sort | src/lib/fcitx-utils/list.c:62-113 | for every ring: terminates with the same nodes, `next` and `prev` mirrored all the way round the head, sorted and stable for every total preorder |
| List.SortOfParts | src/lib/fcitx-utils/list.c:84-108 | sorting the halves separately and merging sorts the whole stably |
| StableOrder.MergePermutes | src/lib/fcitx-utils/list.c:40-52 | a merge loses, duplicates and invents nothing, whatever the comparator says |
| StableOrder.MergeSorted | src/lib/fcitx-utils/list.c:40-52 | the merge of two sorted sequences is sorted |
| StableOrder.MergeClass | src/lib/fcitx-utils/list.c:40-41 | `<= 0` takes ties from the left: among equal elements all of the left side comes first |
| StableOrder.MergeIsStableSort | src/lib/fcitx-utils/list.c:28-53 | merging stable sorts of two adjacent pieces is a stable sort of both |
| StableOrder.StableSortUnique | src/lib/fcitx-utils/list.c:62-113 | a sequence has only one stable sort, so sortedness and stability determine the result |
| StableOrder.StableSortsAgree | src/lib/fcitx-utils/list.c:62-113 | any two stable sorts of one sequence give the same result |
| HashIndex.HashIndex.Find | src/lib/fcitx-utils/uthash.h:103-114 | returns an item with the key if there is one, and nothing exactly when no item has it |
| HashIndex.HashIndex.Add | src/lib/fcitx-utils/uthash.h:182-205 | keeps the whole invariant, bucket doubling included; the item is last in application order and first in its bucket; a table made by adds alone keeps its 32 buckets exactly as long as none of them has held ten items |
| HashIndex.HashIndex.AddToBucket | src/lib/fcitx-utils/uthash.h:625-636 | the table is doubled exactly if the item brings its bucket to ten times one more than that bucket's multiplier and the table has not given up; otherwise the sizes, the multipliers, the give-up count and all other chains are as before |
| HashIndex.HashIndex.ExpandBuckets | src/lib/fcitx-utils/uthash.h:680-726 | every chain is redistributed in reverse order, ideal length, non-ideal count, multipliers and the give-up flag are what they should be |
| HashIndex.HashIndex.MoveBucket | src/lib/fcitx-utils/uthash.h:697-713 | the inner loop moves the chain of one old bucket node by node, leaving the chains still to come linked |
| HashIndex.HashIndex.SetIdealLength | src/lib/fcitx-utils/uthash.h:691-693 | shift and mask compute the ceiling of items over new buckets, at least 1 |
| HashIndex.HashIndex.Delete | src/lib/fcitx-utils/uthash.h:224-257 | exactly the item goes from list and bucket, the invariant stays, and the last deletion gives the table back |
| HashIndex.HashIndex.Sort | src/lib/fcitx-utils/uthash.h:733-818 | the list becomes the stable sort of the items with correct head, tail and links; no bucket or chain pointer is written |
| HashIndex.HashIndex.Fsck | src/lib/fcitx-utils/uthash.h:287-337 | the author's own integrity check never fails on a reachable index |
| HashChains.LowBucket | src/lib/fcitx-utils/uthash.h:207-210 | in the doubled table an item of bucket i belongs to i or i + the old count |
| HashChains.MoveTarget | src/lib/fcitx-utils/uthash.h:697-713 | the node being moved goes to a bucket that has received nothing but nodes of the same old bucket |
| HashChains.ExpandedHolds | src/lib/fcitx-utils/uthash.h:680-726 | after the redistribution every item is again in the bucket its hash value selects, and only there |
| HashChains.CeilingIsLeast | src/lib/fcitx-utils/uthash.h:667-693 | the ideal chain length is the least one that lets the items fit the buckets |
| HashChains.CeilingOfShift | src/lib/fcitx-utils/uthash.h:675-693 | the shift-and-mask formula is that least length |
| HashChains.NonidealPush | src/lib/fcitx-utils/uthash.h:702-706 | counting a node beyond the ideal length keeps nonideal_items the sum of the excesses over all buckets |
| HashChains.MultiplierMeans | src/lib/fcitx-utils/uthash.h:702-706 | a bucket's multiplier is 0 up to the ideal length, and behind it how many whole times the ideal length goes into the bucket |
| HashChains.ChainsCountItems | src/lib/fcitx-utils/uthash.h:287-337 | the chain lengths add up to the number of items |
| Bits.MaskIsMod | src/lib/fcitx-utils/uthash.h:207-210 | masking with 2^k - 1 is the remainder modulo 2^k |
| BottomUpSort.PassPermutes | src/lib/fcitx-utils/uthash.h:733-818 | one pass of the bottom-up sort permutes |
| BottomUpSort.PassDoubles | src/lib/fcitx-utils/uthash.h:733-818 | one pass over sorted runs of length k leaves sorted runs of length 2k, and is stable |
| HashSort.MergeRuns | src/lib/fcitx-utils/uthash.h:763-803 | one pair of runs is merged onto the output list through next and prev, ties from the first run |
| HashSort.SortList | src/lib/fcitx-utils/uthash.h:733-818 | the loop ends because the run size doubles, with the stable sort of the list |
| Dict.Dict.Insert | src/lib/fcitx-utils/dict.c:47-76 | refines update of an insertion-ordered map: a new key goes last, a replaced value is notified, without leave to replace nothing changes |
| Dict.Dict.Lookup | src/lib/fcitx-utils/dict.c:79-92 | finds the value exactly if the key is in the map |
| Dict.Dict.Remove | src/lib/fcitx-utils/dict.c:164-182 | deletes the key from map and order; the value is handed over or notified, never both |
| Dict.Dict.RemoveIf | src/lib/fcitx-utils/dict.c:206-217 | exactly the entries the callback picks go, the rest keep their order, each lost value is notified once, in order |
| Dict.Dict.RemoveAll | src/lib/fcitx-utils/dict.c:154-161 | the dictionary is empty and every value was notified once, in order |
| Dict.Dict.Clone | src/lib/fcitx-utils/dict.c:246-262 | the clone has the same keys in the same order with copied values, shares nothing, and the original is untouched |
| Dict.Dict.Size | src/lib/fcitx-utils/dict.c:95-98 | the number of keys, also when there is no table |
| Dict.Dict.Sort | src/lib/fcitx-utils/dict.c:142-151 | the same entries in stable sorted order; the map and so every lookup is unchanged |
| Dict.Dict.SortByKey | src/lib/fcitx-utils/dict.c:124-151 | without a callback the keys end in strictly ascending order |
| Dict.DefaultCompareTotal | src/lib/fcitx-utils/dict.c:124-139 | the default comparison is antisymmetric and 0 only for equal keys |
| Dict.DefaultCompareTransitive | src/lib/fcitx-utils/dict.c:124-139 | the default comparison is transitive |
| Dict.DefaultCompareMeans | src/lib/fcitx-utils/dict.c:124-139 | the default comparison is the lexicographic order of unsigned bytes, a proper prefix first |
| ObjPool.ObjPool.constructor | src/lib/fcitx-utils/objpool.c:67-82 | all slots are threaded into one acyclic free list and none is live; a slot is a multiple of four bytes with room for the element and one word, and no longer than that needs |
| ObjPool.ObjPool.AllocId | src/lib/fcitx-utils/objpool.c:85-114 | returns an id that was not live, makes exactly it live, keeps all payloads, doubles only when nothing is free |
| ObjPool.ObjPool.FreeId | src/lib/fcitx-utils/objpool.c:118-128 | for every id whose offset is honest: succeeds exactly if it is live, and otherwise nothing changes |
| ObjPool.GrowthFits | src/lib/fcitx-utils/objpool.c:94-111 | the words that growing writes lie inside the doubled buffer exactly when the old one had at least two slots |
| ObjPool.OffsetIsHonest | src/lib/fcitx-utils/objpool.c:120-124 | whatever the memory holds, the test answers whether the id is in use exactly for ids whose 32-bit offset is their own or lies behind the buffer |
| ObjPool.WrappedIdIsFreed | src/lib/fcitx-utils/objpool.c:120-127 | id 2^30 is taken to be in use, and would be freed, whenever id 0 is in use |
| ObjPool.ThreadedFrom | src/lib/fcitx-utils/objpool.c:75-81 | slots threaded one after the other from some place on form a free list of exactly those slots |
| HandlerTable.HandlerTable.FindKey | src/lib/fcitx-utils/handler-table.c:66-84 | finds the key or creates it with an empty list |
| HandlerTable.HandlerTable.KeyAppend | src/lib/fcitx-utils/handler-table.c:89-109 | the new id is appended to that key's list; every other list and every stored object stays |
| HandlerTable.HandlerTable.KeyPrepend | src/lib/fcitx-utils/handler-table.c:121-141 | the new id is put in front of that key's list; every other list and every stored object stays |
| HandlerTable.HandlerTable.Append | src/lib/fcitx-utils/handler-table.c:112-118 | appending by key, creating it if need be |
| HandlerTable.HandlerTable.Prepend | src/lib/fcitx-utils/handler-table.c:152-158 | prepending by key, creating it if need be |
| HandlerTable.HandlerTable.RemoveById | src/lib/fcitx-utils/handler-table.c:321-342 | exactly that id leaves its list and the pool, its object is freed once; the invalid id changes nothing |
| HandlerTable.HandlerTable.FreeKey | src/lib/fcitx-utils/handler-table.c:345-365 | all objects of the key are freed once, in list order, and the key goes |
| HandlerTable.HandlerTable.RemoveByIdFull | src/lib/fcitx-utils/handler-table.c:368-375 | as remove_by_id, and the key goes with its last object |
| HandlerTable.HandlerTable.RemoveKey | src/lib/fcitx-utils/handler-table.c:378-386 | the objects of that key and of no other are freed; an unknown key changes nothing |
| HandlerTable.HandlerTable.SmallPoolIsHonest | src/lib/fcitx-utils/objpool.c:118-128 | as long as the pool has at most 2^32 bytes, every live id can be given back, which is what the removals require of the ids they free |
| HandlerTable.ExactlyOneList | src/lib/fcitx-utils/handler-table.c:88-141 | every live id lies on exactly one key's list, at one place, and the lists hold nothing else |
| HandlerTable.TableAppend | src/lib/fcitx-utils/handler-table.c:89-109 | relinking for an append keeps every list threaded through prev and next |
| HandlerTable.TableRemove | src/lib/fcitx-utils/handler-table.c:327-338 | relinking the neighbours keeps every list threaded through prev and next |
| HandlerTable.TableDropKey | src/lib/fcitx-utils/handler-table.c:345-365 | dropping a key with all its objects leaves a consistent table |
| MainLoop.MainLoop.DispatchTimeout | src/lib/fcitx-utils/mainloop.c:219-249 | for all callbacks, clocks and allocators: the walk over links with reference counts computes exactly the pass that Timeouts describes without them, terminates and never touches a freed event |
| MainLoop.MainLoop.RegisterTimeoutEvent | src/lib/fcitx-utils/mainloop.c:455-471 | the event is first in the list, held once, and due at once or after its timeout |
| MainLoop.MainLoop.RemoveTimeoutEvent | src/lib/fcitx-utils/mainloop.c:483-494 | only the last reference unlinks, notifies and frees, once |
| MainLoop.MainLoop.Callback | src/lib/fcitx-utils/mainloop.c:233-234 | the running event survives whatever its callback removes, itself included |
| MainLoop.MainLoop.Prepare | src/lib/fcitx-utils/mainloop.c:344-369 | sleep not at all if something is due, for ever if there is nothing, else until the first event is due |
| MainLoop.SleepIsSafe | src/lib/fcitx-utils/mainloop.c:219-369 | when the poll may sleep, a pass at that clock would not have called anything |
| MainLoop.RingRemove | src/lib/fcitx-utils/list.h:68-77 | unlinking by address keeps the ring through head, next and prev |
| TimeoutLaws.PassIsSafe | src/lib/fcitx-utils/mainloop.c:219-249 | nothing freed, removed or newly registered is called, nothing is called, notified or freed twice, every removed event and called one-shot is notified if it asks and freed, and unless the pass was quit whatever was not called was not due |
| TimeoutLaws.WalkTracks | src/lib/fcitx-utils/mainloop.c:219-249 | the ledger of what may still happen to each event is kept at every step of the walk |
| TimeoutLaws.NothingDue | src/lib/fcitx-utils/mainloop.c:232-247 | a pass over events that are not due changes nothing |
| Timeouts.FireKeepsBetween | src/lib/fcitx-utils/mainloop.c:232-244 | after any callback the list holds exactly the allocated events, once each |
| TimeoutFates.PassTellsFates | src/lib/fcitx-utils/mainloop.c:132-249 | of every pass: an event that was called and is still there repeats, has time 0 or the clock after its own callback plus its timeout, and its other fields as before; one that was there before, was not called and not freed has all its fields; one that was registered has what its callback asked for; only events of before the pass that were due are called |
| TimeoutRequests.PassObeys | src/lib/fcitx-utils/mainloop.c:225-232 | of every pass: each registration and removal a callback asks for is done, the loop is left as quit exactly if it was or a callback said so, and after that callback there is no further call |
| Timeouts.LastComesLast | src/lib/fcitx-utils/mainloop.c:232 | what a callback asks for is done in turn, the last operation on what the others leave |
| TimeoutRequests.PassCallsInOrder | src/lib/fcitx-utils/mainloop.c:224-247 | events are called in the order in which they stood in the list when the pass began |
| Utf8.CharLen | src/lib/fcitx-utils/utf8.c:57-83 | between 1 and 6, and within the bytes of a non-empty string |
| Utf8.GetChar | src/lib/fcitx-utils/utf8.c:153-194 | moves on by fcitx_utf8_char_len |
| Utf8.RoundTrip | src/lib/fcitx-utils/utf8.c:105-194 | decoding an encoding moves on by its length and gives the value back exactly below 2^26 and from 2^27 to 2^31 |
| Utf8.DecodeForm | src/lib/fcitx-utils/utf8.c:153-194 | the n byte form of a value decodes to the bits it has room for |
| Utf8Strict.GetCharExtended | src/lib/fcitx-utils/utf8.c:243-301 | the loops compute the decoding with its two error results, for every limit |
| Utf8Strict.ExtendedMeans | src/lib/fcitx-utils/utf8.c:243-301 | a character is found exactly where its shortest form stands within the limit |
| Utf8Strict.PartialMeans | src/lib/fcitx-utils/utf8.c:273-292 | the second error result means an announced form with nothing wrong but that the limit or the terminator cuts it short |
| Utf8Strict.FormOfGathered | src/lib/fcitx-utils/utf8.c:277-295 | a first byte with its announced continuation bytes is the form of the value gathered from them |
| Utf8Strings.GetCharValidated | src/lib/fcitx-utils/utf8.c:304-320 | a valid code point is the result exactly where its shortest form stands within the limit; otherwise 0 at the terminator, the partial error for a form cut short or a limit of 0, and else the other error |
| Utf8Strings.TextStep | src/lib/fcitx-utils/utf8.c:323-336 | where the strict decoder finds a valid code point, the string is a text exactly if the rest is |
| Utf8Strings.CheckString | src/lib/fcitx-utils/utf8.c:323-336 | accepts exactly the concatenations of encodings of valid non-zero code points, which are given as numbers, plane by plane |
| Utf8Strings.EncodingIsUnique | src/lib/fcitx-utils/utf8.c:105-149 | different texts have different encodings |
| Utf8Strings.DecodeEncodeAll | src/lib/fcitx-utils/utf8.c:42-54 | repeated decoding returns every readable sequence of values, cut at the right places |
| Utf8Strings.Strlen | src/lib/fcitx-utils/utf8.c:42-54 | the number of characters decoded |
| Utf8Strings.Strncpy | src/lib/fcitx-utils/utf8.c:339-359 | writes exactly `byte` bytes: the longest prefix of whole characters that fits, then NULs |
| Utf8Strings.CopiedWhole | src/lib/fcitx-utils/utf8.c:339-359 | what is copied is a prefix of the string, and all of it exactly if its bytes fit |
| Utf8Strings.Strnlen | src/lib/fcitx-utils/utf8.c:362-378 | counts exactly the characters fcitx_utf8_strncpy copies |
| Utf8Strings.FitIsMost | src/lib/fcitx-utils/utf8.c:339-378 | the characters counted fit, and one more would not |
| Utf8Strings.PrefixIsText | src/lib/fcitx-utils/utf8.c:339-359 | a whole-character prefix of a valid string is valid |
| UnicodeLaws.UnicodeValidMeans | src/lib/fcitx-utils/utf8.c:34-38 | valid are exactly the numbers below 17 * 65536 that are not from 0xD800 to 0xDFFF, not from 0xFDD0 to 0xFDEF and not one of the last two of their plane |
| Utf8Laws.FormMeans | src/lib/fcitx-utils/utf8.c:105-149 | the bytes of a form are its mark in front and the digits of the value to the base 64 |
| Utf8Laws.GetCharMeans | src/lib/fcitx-utils/utf8.c:153-190 | where a first byte has the continuation bytes it calls for, the result is the number with these digits, and its length |
| Utf8Laws.GetCharOtherwise | src/lib/fcitx-utils/utf8.c:153-193 | anywhere else the result is the byte as it is, and one byte is taken |
| Utf8Laws.LengthIsLeast | src/lib/fcitx-utils/utf8.c:27-32 | the length the strict decoder asks for is that of the shortest form that decodes to the value |
| Utf8Laws.Ucs4CharLenMeans | src/lib/fcitx-utils/utf8.c:86-102 | the encoder uses that length, but one byte less from 2^26 to 2^27 |
| Utf8Laws.SmileIsText | src/lib/fcitx-utils/utf8.c:323-336 | F0 9F 98 80 is a text |
| Utf8Laws.SurrogateIsNoText | src/lib/fcitx-utils/utf8.c:323-336 | ED A0 80, a surrogate, is none |
| BackwardSearch.BackwardSearch | src/lib/fcitx-utils/stringutils.c:246-277 | the greatest match not behind min(from, l - ol), and none exactly when there is none or the arguments are out of range |
| BackwardSearch.Roll | src/lib/fcitx-utils/stringutils.c:240-243 | the rolled hash is the hash of the moved window modulo 2^32, also for needles longer than 32 |
| Escape.SetEscapeStrWithSet | src/lib/fcitx-utils/stringutils.c:40-68 | the escaped string and its terminator fit into the 2 * len + 1 bytes allocated |
| Escape.SetUnescapeStr | src/lib/fcitx-utils/stringutils.c:154-177 | the unescaped string fits into len + 1 bytes |
| Escape.UnescapeStrInplace | src/lib/fcitx-utils/stringutils.c:180-199 | the same result as the copying form, because the write cursor never passes the read cursor |
| Escape.RoundTripsExactly | src/lib/fcitx-utils/stringutils.c:40-177 | unescaping undoes escaping on every string exactly for the sets with the backslash and without the letters abfnrtev |
| Escape.DefaultSetRoundTrips | src/lib/fcitx-utils/stringutils.c:40-177 | in particular for the default set of stringutils.h |
| EscapeLaws.EscapedMeans | src/lib/fcitx-utils/stringutils.c:40-68 | each character is written as it is, or, if in the set, as a backslash and the C letter of its code or else itself |
| EscapeLaws.UnescapedExactly | src/lib/fcitx-utils/stringutils.c:117-199 | a text has no dangling backslash and unescapes to v exactly if it is put together from characters other than the backslash and pairs that stand, by the C letters, for the characters of v |
| EscapeLaws.NeedEscapeMeans | src/lib/fcitx-utils/stringutils.h:36 | the characters escaped by default, by their codes |
| StringReplace.StringReplace | src/lib/fcitx-utils/stringutils.c:316-399 | the loop over batches of 128 occurrences computes Result, each write inside the buffer as it has been allocated so far |
| StringReplace.CopiedIsMeant | src/lib/fcitx-utils/stringutils.c:370-382 | what the code puts together is every occurrence replaced exactly when, inside each batch, the text in front of an occurrence stands again behind it, inside the string |
| StringReplace.ResultIsMeant | src/lib/fcitx-utils/stringutils.c:316-399 | the same of the function's result, null included |
| StringReplace.OneOccurrence | src/lib/fcitx-utils/stringutils.c:316-399 | with at most one occurrence it always does |
| StringReplace.WrongGap | src/lib/fcitx-utils/stringutils.c:378-381 | 1x2x3 is an input for which the result is not the meant one, whatever the replacement and the memory behind the string |
| StringReplace.MeantIsReplace | src/lib/fcitx-utils/stringutils.c:316-399 | replacing one character everywhere is the character-wise replacement the printer relies on |
| ReplaceLaws.StrstrFinds | src/lib/fcitx-utils/stringutils.c:341 | for every needle: the first place from the pivot on where all its characters stand, and the end exactly if there is none |
| ReplaceLaws.OccurrencesExactly | src/lib/fcitx-utils/stringutils.c:339-348 | the places collected are exactly the leftmost ones that do not overlap |
| ReplaceLaws.MeantMeans | src/lib/fcitx-utils/stringutils.c:316-399 | what is meant: the string is cut at the leftmost places of the needle and its pieces are joined with the replacement; null exactly when asked for and there is one piece only |
| ReplaceLaws.CutIsUnique | src/lib/fcitx-utils/stringutils.c:316-399 | a string can be cut in this way in one way only |
| ReplaceLaws.ReplaceableMeans | src/lib/fcitx-utils/stringutils.c:370-382 | the code does this exactly if the text between two occurrences stands again behind the second, but for every 128th, character by character |
| ReplaceDiff.WholeParts | src/lib/fcitx-utils/stringutils.c:370-382 | a string that is not replaced properly is seen to part from the meant text inside a gap, and how it goes on there |
| ReplaceDiff.WholeLater | src/lib/fcitx-utils/stringutils.c:378-381 | what is copied comes from further right, so no other character comes later than it is meant to |
| ConfigTree.SetThenGet | src/lib/fcitx-config/configuration.c:55-94 | setting a path, creating nodes on the way, changes the value there and nowhere else |
| ConfigTree.SetKeepsRest | src/lib/fcitx-config/configuration.c:55-94 | it changes no comment and the order of no sub-items; what it creates comes last among its siblings |
| ConfigTree.SegmentsOfJoined | src/lib/fcitx-config/configuration.c:66-91 | walking a path built from segments visits those segments |
| ConfigTree.EmptyFirstSegmentIsLost | src/lib/fcitx-config/configuration.c:66-69 | unless the first one is empty: its slash is taken for a leading one |
| ConfigTree.WalkPath | src/lib/fcitx-config/configuration.c:66-91 | the loop cuts the path into exactly these segments |
| Configuration.Configuration.SetValueByPath | src/lib/fcitx-config/configuration.c:55-94 | the nodes in memory, updated in place without sharing, form the tree with that one value set |
| Configuration.Configuration.Set | src/lib/fcitx-config/configuration.c:66-91 | the walk finds or creates each node and keeps ownership of the subtrees disjoint |
| Configuration.Configuration.GetValueByPath | src/lib/fcitx-config/configuration.c:55-101 | finds the value the tree has at the path, or none |
| PathBuffer.PathBuffer.SetKey | src/lib/fcitx-config/configuration.c:156-172 | the reused, growing buffer holds the path of the sub-item and its terminator; there must be a buffer, or be one made |
| PathBuffer.PassAllowedExactly | src/lib/fcitx-config/configuration.c:156-195 | a pass over sub-items never writes to a missing buffer exactly if the path or the first name is not empty |
| IniParser.UnescapeString | src/lib/fcitx-config/iniparser.c:40-70 | two cursors over one buffer: fails or unescapes, exactly as the reading of the string from left to right, and writes nothing behind its second terminator |
| IniParser.WritesBehind | src/lib/fcitx-config/iniparser.c:46-70 | the second terminator lies outside the memory of the string exactly if there is no backslash in it |
| IniLaws.UnescapeExactly | src/lib/fcitx-config/iniparser.c:40-70 | a text is accepted, and as v, exactly if it is put together from characters other than the backslash and the pairs for backslash and newline, and for the quote only where quoted, which stand for the characters of v |
| IniLaws.PrintedMeans | src/lib/fcitx-config/iniparser.c:153-178 | a value is meant to be printed character by character with these pairs, and in quotes exactly if it has a tab, vertical tab, form feed, carriage return or blank |
| IniLaws.TrimExactly | src/lib/fcitx-utils/stringutils.c:201-214 | trimming a line takes off all white space at both ends and nothing else |
| IniLaws.LineMeans | src/lib/fcitx-config/iniparser.c:84-96 | whatever white space is around it, a line beginning with # says nothing, one in brackets names a group, and any other without an equals sign says nothing |
| IniLaws.AssignmentMeans | src/lib/fcitx-config/iniparser.c:96-113 | any other line assigns to what stands before the first equals sign the value that the text behind it spells, and says nothing if it spells none |
| IniLaws.EscapedQuoteIsSkipped | src/lib/fcitx-config/iniparser.c:55-63 | an escaped quote in a value without quotes makes the line change nothing |
| IniLaws.EscapedQuoteInQuotes | src/lib/fcitx-config/iniparser.c:103-112 | in quotes the same text is read |
| IniLaws.GroupedMeans | src/lib/fcitx-config/iniparser.c:92-118 | below a group line an assignment sets the value at the path of the group followed by that of the name, and no other |
| IniLaws.UngroupedMeans | src/lib/fcitx-config/iniparser.c:119-121 | above all group lines, at the path of the name |
| IniLaws.LinesMean | src/lib/fcitx-config/iniparser.c:83 | the lines are the file, cut behind every newline |
| IniValue.ValueRoundTrip | src/lib/fcitx-config/iniparser.c:153-178 | a value printed as it is meant to be survives reading exactly if it is not a blank-free string in quotes of its own |
| IniValue.CodeRoundTrip | src/lib/fcitx-config/iniparser.c:153-178 | the same of what the code prints, for values in whose three replacements the text between occurrences repeats |
| IniValue.FewPrintWell | src/lib/fcitx-config/iniparser.c:153-170 | values with at most one backslash, one newline and one quote are among them |
| IniMisprint.PrintsWellExactly | src/lib/fcitx-config/iniparser.c:153-178 | where at most one of backslash, newline and quote occurs more than once, the code prints a value as it is meant to exactly if each of its replacements works |
| IniMisprint.MisprintedValue | src/lib/fcitx-config/iniparser.c:153-157 | a value with two backslashes that is printed wrongly and read back as another one |
| IniLine.OptionRoundTrip | src/lib/fcitx-config/iniparser.c:83-126 | an option line as it is meant is read back exactly if name and value survive: no equals sign, leading space or # in the name, no [ with a final ], and no lost quotes |
| IniLine.CodeOptionRoundTrip | src/lib/fcitx-config/iniparser.c:83-178 | the same of the line that the code prints |
| IniLine.GroupIsRead | src/lib/fcitx-config/iniparser.c:93-96 | a section header gives its path back |
| IniLine.LinesOfText | src/lib/fcitx-config/iniparser.c:82-83 | lines printed without newlines in them are the lines read |
| IniParser.Print | src/lib/fcitx-config/iniparser.c:184-198 | the three passes, each with its path buffer, append the section of a node's own values and then, in order, those of its sub-items |
| IniParser.PrintableExactly | src/lib/fcitx-config/iniparser.c:184-198 | none of the passes writes to a missing buffer, at any path, exactly if no node's first sub-item has the empty name |
| IniParser.UnprintableTree | src/lib/fcitx-config/configuration.c:156-169 | setting the path a/ makes a tree that cannot be printed |
| IniParser.PrintOption | src/lib/fcitx-config/iniparser.c:142-182 | comment line and option line of a value, with the three replacements as the code does them; nothing for a node without a value |
| IniParser.WrittenText | src/lib/fcitx-config/iniparser.c:142-178 | letter by letter: # and the comment on a line of its own if it has no newline, then name, equals sign and value |
| IniLaws.HasSubValueMeans | src/lib/fcitx-config/iniparser.c:131-140 | a node has a section of its own exactly if one of its sub-items has a value |
| IniLaws.PrintedTree | src/lib/fcitx-config/iniparser.c:184-198 | own values first, under their comments, then the sub-items in order under their full paths; no group line without values, none at the top |
| IniParser.Parse | src/lib/fcitx-config/iniparser.c:73-129 | the line loop applies every line, with the current group, to the configuration in place |
| IniRoundTrip.PrintParse | src/lib/fcitx-config/iniparser.c:73-204 | for every well-formed tree, printing as it is meant and parsing into an empty one gives the same value at every path below the root |
| IniRoundTrip.SectionsParsed | src/lib/fcitx-config/iniparser.c:184-198 | the sections of any subtree, parsed into any tree, set exactly the values below it |
| IniRoundTrip.CodeSections | src/lib/fcitx-config/iniparser.c:142-198 | the code prints a tree as it is meant to if it does so with each of its values |
| IniRoundTrip.SaveAndLoad | src/lib/fcitx-config/iniparser.c:73-204 | the round trip of the printing and parsing code itself, on nodes in memory |
| ArraySort.InsertionSort | src/lib/fcitx-utils/sort_common.h:52-64 | in place, the stable insertion sort of the run; the rest of the array stays |
| ArraySort.InsertedSorts | src/lib/fcitx-utils/sort_common.h:52-64 | insertion sort is a stable sort for every total preorder, and a permutation for any comparator |
| ArraySort.MergeHalves | src/lib/fcitx-utils/msort_r.c:51-72 | merging through the scratch buffer and copying back n - n_b elements gives the merge of both halves |
| ArraySort.MsortWithTmp | src/lib/fcitx-utils/msort_r.c:26-73 | in place, the merge sort of the run with one scratch buffer for the whole recursion |
| ArraySort.MergeSortedSorts | src/lib/fcitx-utils/msort_r.c:26-73 | that merge sort is a stable sort |
| ArraySort.Msort | src/lib/fcitx-utils/msort_r.c:78-94 | the stable sort with the scratch buffer, a sorted permutation without |
| ArraySort.AnyStableSort | src/lib/fcitx-utils/msort_r.c:25-73 | every stable sort, of the list or of the hash items too, gives the sequence that the merge sort gives |
| ArraySort.Partition | src/lib/fcitx-utils/qsort_r.c:37-55 | the pivot ends between the elements that compare at most it and those that do not; only this run is permuted |
| ArraySort.Qsort | src/lib/fcitx-utils/qsort_r.c:31-60 | terminates with a sorted permutation of the run, leaving the rest of the array |
| MemoryPool.MemoryPool.AllocAlign | src/lib/fcitx-utils/memory-pool.c:62-97 | the new block lies apart from all earlier blocks, at the beginning of what is free in the first chunk with room, or the next multiple of four; a chunk of whole pages of 8192 bytes is added exactly when none has room; searched on are exactly the chunks with more than 16 bytes left |
| MemoryPool.MemoryPool.Retire | src/lib/fcitx-utils/memory-pool.c:90-94 | a full chunk changes arrays and is in exactly one of them |
| MemoryPool.MemoryPool.Clear | src/lib/fcitx-utils/memory-pool.c:117-121 | every chunk's memory is freed exactly once |
| MemoryPool.CutOk | src/lib/fcitx-utils/memory-pool.c:67-76 | cutting a block off a chunk keeps all blocks disjoint and inside chunks |
| MemoryPool.RemoveQuickPermutes | src/lib/fcitx-utils/utarray.h:318-324 | moving the last element into the gap loses nothing |
| Addon.AddonManager.Load | src/lib/fcitx/addon.c:421-455 | the loop over flags and arrays computes the load that AddonOrder describes, in one or two passes |
| Addon.AddonManager.VisitAddon | src/lib/fcitx/addon.c:427-453 | the body of the loop: disable on an unknown dependency, load when all are loaded, disable when loading fails |
| Addon.AddonManager.Unload | src/lib/fcitx/addon.c:465-478 | every loaded addon is destroyed once, in the reverse of the load order, and its flag is cleared |
| AddonOrder.TwoPasses | src/lib/fcitx/addon.c:422-454 | a second pass asks for no third; the first asks for a second exactly if an enabled addon has an unknown dependency |
| AddonOrder.LoadedIsPlan | src/lib/fcitx/addon.c:368-454 | from an empty manager each loaded addon is loaded once, behind all its dependencies |
| AddonOrder.LoadedExactly | src/lib/fcitx/addon.c:421-454 | where the dependencies of an addon settle whether it resolves, loaded are exactly the addons of some plan that one run through the dictionary reaches, or two if an enabled addon has an unknown dependency |
| AddonOrder.RefusedForGood | src/lib/fcitx/addon.c:376-401 | where they do not, an addon that is asked for before its resolver is registered is disabled for good, although a second run comes by |
| AddonOrder.LeftOut | src/lib/fcitx/addon.c:446-451 | an addon in front of its only dependency is not loaded, although it could be |
| AddonOrder.ReversedPlan | src/lib/fcitx/addon.c:472-476 | in the unload order every addon stands in front of the addons it depends on |

## Left out

- HashIndex.HashIndex.Add: counts are unbounded, so 32-bit wrap-around of bucket and item counts is not modelled; the table record is part of the index object.
- ObjPool.ObjPool.FreeId: requires an id with an honest 32-bit offset; `OffsetIsHonest` shows that the code answers rightly for no others. What the payload holds where a wrapped offset may point is not modelled.
- ObjPool.ObjPool.AllocId: requires two slots when it has to grow, by `GrowthFits`.
- Dict.Dict.RemoveIf: the callback sees the value and does not change it.
- HandlerTable.HandlerTable.RemoveById: requires the invalid id or a live one with an honest 32-bit offset; likewise the other removals, of the ids that they free.
- HandlerTable.HandlerTable.RemoveByIdFull: requires a live id; for the invalid one the code dereferences a null key.
- HandlerTable.HandlerTable.FindKey: the keys are held in a map, which is what the hash index is proved to refine; key data and its init and free hooks are not modelled.
- MainLoop.MainLoop.Callback: operations on events that are not there, or are removed already, are not performed; a callback does not dispatch again and destroyNotify does not call back.
- BackwardSearch.BackwardSearch: requires a needle of 1 to 2^32 characters; for an empty one the code forms pointers 4 GiB behind both strings, and finds it at once.
- Escape.SetUnescapeStr: requires no dangling backslash, behind which the code reads past the terminator; likewise in place.
- IniParser.Parse: the file is a string without NUL bytes; the line buffer has a byte to spare behind the value.
- StringReplace.StringReplace: positions and lengths are unbounded where the code has 32-bit ones.
- IniValue.ValueRoundTrip: speaks of a value printed as it is meant; `CodeRoundTrip` is the result about the code, under the condition that the replacements work.
- IniValue.CodeRoundTrip: does not say that a value printed wrongly is never read back as itself; `PrintsWellExactly` says when it is printed wrongly, for values in which two of the three characters do not occur twice.
- IniLine.OptionRoundTrip: likewise; `CodeOptionRoundTrip` is the result about the code.
- IniRoundTrip.SectionsParsed: likewise; the code prints these sections under the condition of `CodeSections`.
- IniRoundTrip.PrintParse: the root's own value and comments are not printed or not read, so they are not compared; top level names are not empty, for the walk loses an empty first segment (`EmptyFirstSegmentIsLost`); printing is as it is meant, and `SaveAndLoad` is about the code.
- Configuration.Configuration.Set: the walk recurses where the source loops; reference counts and nodes shared between trees are not modelled.
- MemoryPool.MemoryPool.AllocAlign: requires a positive size and assumes malloc succeeds.
- Addon.AddonManager.Load: starts from an empty manager, so that fcitx_dict_remove_data, which deletes an item twice, is not reached; reading metadata is left out, and whether an addon resolves is a predicate of the addons loaded so far.
- AddonOrder.LoadedExactly: requires that whether an addon resolves is settled by its dependencies; `RefusedForGood` shows an addon lost where it is not.
- Msort aside, failing allocations are not modelled anywhere.
- The Jenkins hash, Bloom filters and the other hash functions of `uthash.h`: any function will do.
- I/O events, polling, the wakeup pipe and fcitx_mainloop_free in `mainloop.c`: system calls, and event pointers into a pool that growth may move.
- fcitx_dict_steal_all and fcitx_dict_foreach: the same walk as removal and cloning, with a foreign callback.
- fcitx_utils_strrstr, trimming as a function of its own, string concatenation helpers: easy members.
- fcitx_utf8_strncmp, fcitx_utf8_get_nth_char and the ASCII helpers of `utf8.c`: easy members.
- fcitx_configuration_remove and fcitx_configuration_sort: walks over what is modelled.
- fcitx_addon_manager_invoke and its libffi marshalling, overrides of enabled addons: foreign calls and settings.
- D-Bus, X11 and XIM frontends, key and colour parsing, bitsets, string lists, pointer arrays: plumbing or easy members.
