# A verified model of the storage engine's data structures

The engine keeps every value in one of a few hand-made representations: lists packed into one byte buffer, sorted sets
kept twice (skiplist and hash table), hash tables that rehash a bucket at a time, sorted integer arrays that widen in
place, small maps searched linearly, and LZF-compressed dumps. Each stands for a simple mathematical object. The modules
here model the C code of these structures, with its buffers, pointers, loops and early exits, and prove that each
operation does to the mathematical object what it is there for.

`dafny verify dfyconfig.toml` checks everything.

| module | source | what it stands for |
|---|---|---|
| `Bytes`, `Decimal`, `Sequences`, `Options` | util.c, and memcpy, memmove, realloc, strtoll | bytes, little-endian fields, decimal forms |
| `ZiplistFormat`, `ZiplistEntries`, `ZiplistLayout`, `ZiplistMisfit`, `Ziplist` | ziplist.c | a sequence of byte strings in one buffer |
| `ListObject` | t_list.c | a sequence of byte strings, as a ziplist or a linked list |
| `SkipLevels`, `SkipNodes`, `SkipList` | t_zset.c, zsl functions | a sequence of (score, object) keys in order |
| `SortedSet` | t_zset.c, commands | a map from members to scores |
| `DictTable`, `Dict`, `DictIterator` | dict.c | a finite map, and a traversal of it |
| `LzfFormat`, `LzfParse`, `Lzf` | lzf_c.c, lzf_d.c | token lists that expand to the input, and how the compressor finds them |
| `Pqsort` | pqsort.c | an array sorted on a range of positions |
| `SdsArgs`, `SdsGrammar` | sds.c | command lines of plain and quoted words |
| `Intset` | intset.c | a set of 64-bit integers |
| `Zipmap` | zipmap.c | a map from byte strings to byte strings |

Objects that the source updates in place are classes; a ghost field or ghost function gives the mathematical value, and a
`Valid` predicate ties the bytes or the pointers to it. A fixed-size buffer is an array, and `realloc` is a new array with
the common prefix copied.

## Findings

Four statements one would expect of the code do not hold. Each has its exact condition and a concrete input.

- **Inserting into the middle of a ziplist** (ziplist.c:521-532). The buffer is resized before its tail is moved. When the
  new entry lets the next back-length field shrink from five bytes to one, a new entry of three bytes makes the buffer one
  byte shorter first, and the resize overwrites the last byte of the last entry with the end marker, 255.
  `Ziplist.Ziplist.InsertAt` states what the whole insertion then leaves: a well-linked list in which that byte of the last
  element is 255. Its values are the old ones with the new string among them if and only if `ZiplistLayout.InsertFits` held
  before the call, that is, unless that byte was lost (it may have been 255 already). `Ziplist.LoseByte` runs into it: after
  three pushes and a deletion the list is `[y, w]`, and inserting `s` at position 1 leaves `[y, s, w']`, where `w'` ends in
  255; `ZiplistMisfit.MisfitStrings` names strings of 252, 248 and 1 letters for which it does. With a new entry of two
  bytes, the empty string, the memmove reads past the end of the resized buffer, and this is the only case in which it
  does (`ZiplistMisfit.SourceInside`). Insertions at the head and at the tail always fit (`ZiplistLayout.EndsFit`).
  `nextdiff` is declared unsigned at line 492 and used as a signed offset; the model takes it as signed.
- **Quoting and splitting a command line** (sds.c:423-447). For the bytes `\a`, `\b`, `\t`, `\n` and `\r` the printer
  appends one byte of a two-byte escape, the backslash alone. A printed line therefore splits into the printed strings if
  and only if none of them contains one of these bytes (`SdsArgs.RoundTripExactly`); the string of one newline is lost
  (`SdsArgs.NewlineIsLost`).
- **The rank of an element that is not there** (t_zset.c:282-306). The comment promises 0. The early return compares objects
  only, so the rank of a node with the same object and a smaller score can be returned. `SkipList.Zsl.GetRank` states the
  answer exactly: 0 if and only if the descent stops at no node of the object; `SkipList.RankOfAbsent` builds a list of one
  element that answers rank 1 to a greater score. The commands pass the current score, and for them the answer is
  the position (`SortedSet.ZSet.Rank`).
- **Rank 0** (t_zset.c:309-326) yields the header node and not NULL: `SkipList.Zsl.GetElementByRank`.

The comment at zipmap.c:52-56 gives other limits for lengths than the code: 252 for a single byte, 253 as the mark of four
bytes, and 254 as the mark of empty space. The model follows the code, in which 254 is the mark of four bytes and empty
space is counted in a byte of its own; the example at zipmap.c:69-71 agrees with it (`Zipmap.LayoutExample`).

## Model

| member | source | states |
|---|---|---|
| Bytes.FromLeOfLe | ziplist.c:216-229 | A length stored as four little-endian bytes is read back as itself. |
| Bytes.FourBytes | ziplist.c:216-229 | In a field of four bytes the low byte comes first. |
| Bytes.SignedOfLe | ziplist.c:283-319 | A two's complement integer of any of the stored widths is read back as itself when it fits the width. |
| Bytes.Memmove | ziplist.c:420-422 | Overlapping ranges: the target receives what the source held before the call, and nothing else changes. |
| Decimal.LongLongToString | util.c:183-202 | The backward digit loop yields the canonical decimal form, cut to the given room; whole in any buffer of more than 20 bytes, nothing when there is no room for a terminator. |
| Decimal.StrtollPrint | util.c:211-225 | Parsing the canonical form of a 64-bit value consumes it whole and gives the value back. |
| Decimal.CanonicalForm | util.c:183-202 | A text is the printed form of v if and only if it is "0", or a nonzero digit followed by digits, or a minus, a nonzero digit and digits, and denotes v in decimal notation; so 0 is not "-0" and nothing starts with a zero. |
| Decimal.RepresentableIffCanonical | util.c:211-225 | The test accepts a string with value v if and only if v fits 64 bits and the string is its canonical decimal form. |
| ZiplistFormat.PrevDecodeField | ziplist.c:203-237 | A back-length written in one byte, in five bytes, or forced into five bytes, is read back with its size, whatever follows. |
| ZiplistFormat.DecodeStrLength | ziplist.c:138-200 | Each of the three string length headers is read back with its size and its length. |
| ZiplistFormat.LoadSaved | ziplist.c:283-319 | An integer saved in the smallest of the three encodings that holds it is loaded as itself. |
| ZiplistFormat.PrevLayout | ziplist.c:34-39 | A back-length below 254 is one byte, the length itself; any other is 254 and four bytes, low byte first. |
| ZiplistFormat.StringLayout | ziplist.c:41-54 | A stored string: two bits tell whether 6, 14 or 32 bits hold its length, high byte first, the fewest that can; then its bytes. |
| ZiplistFormat.IntegerLayout | ziplist.c:41-60 | A stored integer: four bits tell its width, the least of 2, 4 and 8 bytes that holds it; then its two's complement, low byte first. |
| ZiplistFormat.TryEncodingIffCanonical | ziplist.c:249-280 | A string is stored as an integer v if and only if it is the canonical decimal form of the 64-bit value v. |
| ZiplistFormat.EncodeBodyValid | ziplist.c:247-330 | What is written for a string (header and payload) is well formed, is an integer exactly when the string was encodable as one, and denotes the string again. |
| ZiplistFormat.CompareIffEqual | ziplist.c:694-718 | The comparison of a stored body with a string, integer or not, answers exactly whether the denoted string is that string. |
| ZiplistEntries.ZipEntryOfBytes | ziplist.c:322-336 | Reading the header at an entry recovers all its fields and its raw length, independent of the bytes that follow. |
| ZiplistEntries.CascadeCorrect | ziplist.c:357-376 | Started where at most one back-length is stale, the cascade with its early stops leaves every back-length right, payloads and order untouched, and equals relinking the whole list from left to right. |
| ZiplistEntries.RelinkedUnique | ziplist.c:357-376 | That exhaustive relinking has exactly one outcome. |
| ZiplistEntries.CascadeGrowth | ziplist.c:397-421 | The cascade grows the list by four bytes per entry it widens and by nothing else. |
| ZiplistEntries.InsertedCorrect | ziplist.c:490-572 | On entries: insertion keeps the list linked (first entry with a one-byte zero back-length) and puts the body at its position, moving no other. |
| ZiplistEntries.DeletedCorrect | ziplist.c:437-487 | On entries: deletion keeps the list linked and removes exactly the bodies of the named positions. |
| ZiplistLayout.DisturbedHeader | ziplist.c:453-465 | The header that deletion reads after storing the new back-length over it still gives the entry's raw length. |
| ZiplistLayout.EndsFit | ziplist.c:574-578 | Pushing at the head or at the tail never meets the narrowing case, for any valid list and any string. |
| ZiplistMisfit.SourceInside | ziplist.c:521-529 | In any laid-out list, the insertion's memmove reads past the resized buffer exactly when the empty string is inserted where the field behind it shrinks. |
| ZiplistMisfit.ClippedDenotes | ziplist.c:350-355 | A body whose last byte becomes 255 denotes another string, for strings and integers alike, unless that byte was 255. |
| ZiplistMisfit.ClipsNothing | ziplist.c:350-355 | The entries survive the resize exactly when the tail of the buffer does. |
| ZiplistMisfit.InsertedMeans | ziplist.c:490-572 | What the list stands for after an insertion, and that it is the old list with the string in it exactly when nothing was lost. |
| ZiplistMisfit.MisfitEntries | ziplist.c:402-432 | The entries that three pushes and a deletion leave: a five-byte field that holds a length below 254, because the cascade never shrinks. |
| ZiplistMisfit.MisfitBetween | ziplist.c:512-522 | Between those entries, an insertion with a body of one or two bytes makes the buffer two bytes or one byte shorter. |
| ZiplistMisfit.MisfitStrings | ziplist.c:249-280 | Concrete strings that have the body lengths of that case. |
| Ziplist.ReachMisfit | ziplist.c:437-578 | From an empty list, three pushes and a deletion lead to a valid list with exactly those entries. |
| Ziplist.LoseByte | ziplist.c:490-572 | An insertion into that list leaves a wrong one: the last element ends in 255 instead of its own last byte. |
| Ziplist.Ziplist.constructor | ziplist.c:339-347 | A new ziplist is valid, stands for the empty sequence, and its length field is 0. |
| Ziplist.Ziplist.Layout | ziplist.c:11-25 | A valid ziplist is its own size in four bytes, the offset of its last entry in four, the number of entries or 65535 in two, the entries, and 255. |
| Ziplist.Ziplist.Resize | ziplist.c:350-355 | The total-bytes field and the end marker fit the new size; the other bytes up to it are kept. |
| Ziplist.Ziplist.CascadeUpdate | ziplist.c:377-434 | The loop on the buffer terminates and leaves the entries of the whole cascade in place, with total bytes, tail offset and end marker right, and nothing before the start changed. |
| Ziplist.Ziplist.ShiftUp | ziplist.c:521-532 | After resize, memmove and back-length store, the new field is there, with what the resize left of the old bytes behind it: the same bytes if and only if the last one survived. |
| Ziplist.Ziplist.InsertAt | ziplist.c:490-572 | The buffer holds a well-linked list with right header fields again, the length field one higher unless saturated. The string is element i of the represented sequence, the others in order and unchanged, if and only if the insertion fits; otherwise the last element has lost its last byte. |
| Ziplist.Ziplist.PushHead | ziplist.c:574-578 | The string becomes the first element; no condition on the entries. |
| Ziplist.Ziplist.PushTail | ziplist.c:574-578 | The string becomes the last element; no condition on the entries. |
| Ziplist.Ziplist.DeleteAt | ziplist.c:437-487 | At most num elements from element i on leave the sequence, the others keep their order, the byte-level invariant holds again, and the length field is lower by their number unless saturated. |
| Ziplist.Ziplist.DeleteRange | ziplist.c:688-691 | The same from an index that may count from the tail; an index outside the list changes nothing. |
| Ziplist.Ziplist.Index | ziplist.c:583-603 | The offset of the element counted from either end, NULL exactly outside the list. |
| Ziplist.Ziplist.Next | ziplist.c:611-623 | The offset of the next element, NULL exactly at the last element and at the end marker. |
| Ziplist.Ziplist.Prev | ziplist.c:626-642 | The offset of the previous element, NULL exactly at the first; from the end marker, the last element. |
| Ziplist.Ziplist.Get | ziplist.c:648-665 | A payload exactly on elements, and one that denotes the element. |
| Ziplist.Ziplist.Compare | ziplist.c:694-718 | On the buffer: 1 exactly when the element at the cursor is the string. |
| Ziplist.Ziplist.Len | ziplist.c:721-736 | The number of elements, also when the 16-bit field has saturated; the field then holds that number again if it fits, and nothing represented changes. |
| ListObject.DropFirstPrefix | t_list.c:880-896 | Meaning of removal from the head: in a prefix all equal elements go, the rest is untouched, and k went unless the prefix is everything. |
| ListObject.DropLastSuffix | t_list.c:880-896 | The same from the tail, with a suffix. |
| ListObject.DropAll | t_list.c:880-896 | Without a bound both directions leave exactly the other elements in order. |
| ListObject.ListObject.RemoveEqual | t_list.c:841-907 | On a ziplist or a linked list alike: the first k, the last k or all equal elements go, the others keep their order, and the number removed is returned. |
| ListObject.ListObject.First | t_list.c:96-109 | An iterator at either end stands on that end, and on nothing exactly when the list is empty. |
| ListObject.ListObject.Advance | t_list.c:119-146 | Moving on in either direction reaches the neighbour, and stops exactly at the end. |
| ListObject.ListObject.DeleteEntry | t_list.c:218-240 | The element under the iterator leaves the sequence, and the iterator stands on its neighbour in its direction. |
| ListObject.ListObject.Equal | t_list.c:205-215 | Equality of the represented element, whichever encoding holds it. |
| ListObject.ListObject.Trim | t_list.c:794-829 | Exactly the elements of the requested positions stay, for any bounds, negative ones counted from the tail. |
| ListObject.ListObject.Convert | t_list.c:242-262 | The conversion to a linked list leaves the represented sequence unchanged. |
| ListObject.ListObject.Push | t_list.c:17-46 | The value becomes the first or last element, and the ziplist is given up exactly when the value is too long or the list has too many elements. |
| ListObject.ListObject.Pop | t_list.c:48-83 | The first or last element is returned and leaves the sequence; nothing on an empty list. |
| ListObject.ListObject.Insert | t_list.c:174-202 | The value comes right before or right after the element of the iterator, exactly unless the list is a ziplist into which it does not fit. |
| SkipLevels.PredUnique | t_zset.c:98-110 | A level has one predecessor of a cut, and the links of all earlier nodes of the level stay before it. |
| SkipNodes.InsertGood | t_zset.c:124-137 | Writing what insertion writes, for any height, keeps every forward pointer leading to the next node of its level and every span the distance to it. |
| SkipNodes.RemoveGood | t_zset.c:149-158 | The same for what the removal of a node writes, on all levels, whether the node reaches them or not. |
| SkipNodes.InsertMirrored | t_zset.c:139-143 | The back pointers and the tail mirror level 0 after an insertion. |
| SkipNodes.RemoveMirrored | t_zset.c:159-163 | The back pointers and the tail mirror level 0 after a removal. |
| SkipNodes.Lowered | t_zset.c:164-165 | Lowering the level over levels at which the header points nowhere keeps the chain good. |
| SkipList.InsertSorted | t_zset.c:98-114 | A new key put where the descent ends keeps the keys strictly sorted. |
| SkipList.AtMostCut | t_zset.c:285-306 | A key is present exactly when it is the last one not greater than itself. |
| SkipList.StopsIffPred | t_zset.c:292-303 | The descent stops at an element on some level exactly when it is higher than all later elements it does not pass. |
| SkipList.RankOfAbsent | t_zset.c:282-306 | A skiplist of one element answers rank 1 to its object with a greater score, which it does not hold. |
| SkipList.Zsl.constructor | t_zset.c:52-67 | An empty valid skiplist of one level. |
| SkipList.Zsl.Insert | t_zset.c:93-146 | For every level 1 to 32: the new node enters the sequence at its sorted position, has exactly that many levels, the list's level rises to it when lower, the heights of the other nodes stay, and all links, spans, back pointers, tail and length are right again. |
| SkipList.Zsl.DeleteNode | t_zset.c:149-167 | The node leaves every level, the other heights stay, and the list's level is lowered to the height of the highest node left; predecessors collected before, even for more levels, stay good for the next deletion. |
| SkipList.Zsl.Delete | t_zset.c:170-194 | The key leaves the sequence exactly when score and object are present, and its height the heights; otherwise nothing changes. The list's level is again the greatest height, or 1. |
| SkipList.Zsl.DeleteRun | t_zset.c:223-231 | One set of predecessors serves a whole run of deletions: exactly the elements for which the test holds in a row go, from the list and from the dictionary. |
| SkipList.Zsl.DeleteRangeByScore | t_zset.c:206-233 | Exactly the elements whose score lies in the inclusive or exclusive interval go, from the list and from the dictionary, and their number is returned. |
| SkipList.Zsl.DeleteRangeByRank | t_zset.c:237-263 | Exactly the elements of the 1-based ranks go, from both, and their number is returned. |
| SkipList.Zsl.FirstWithScore | t_zset.c:267-279 | The first node whose score is at least the given one, NULL exactly when there is none. |
| SkipList.Zsl.GetRank | t_zset.c:285-306 | The rank of a node of the object at which the descent stops; 0 exactly when there is none, hence only for absent keys. |
| SkipList.Zsl.GetElementByRank | t_zset.c:309-326 | The node of a 1-based rank, NULL behind the last; the header for 0. |
| SortedSet.AgreeCount | t_zset.c:371-491 | A sorted key sequence and a mapping that agree have the same size. |
| SortedSet.RankIsIndex | t_zset.c:285-306 | The position of a member in the skiplist is the number of members ordered before it. |
| SortedSet.ScoresGone | t_zset.c:206-233 | Cutting the part of the skiplist inside an interval removes exactly the members with such scores from the mapping. |
| SortedSet.RanksGone | t_zset.c:237-263 | Cutting the part between two positions removes exactly the members of those ranks. |
| SortedSet.PassingIsInterval | t_zset.c:1108-1142 | The elements that pass the loop test from the first one sought, in either direction, are exactly the interval. |
| SortedSet.ZSet.constructor | object.c:92-101 | An empty sorted set in which skiplist and dictionary agree. |
| SortedSet.ZSet.Add | t_zset.c:403-482 | Set or increment: the member has the new score in both structures, in a new node of the given level; when its score is the old one no node is touched; when it is new beyond the size limit, nothing changes and the refusal is reported. |
| SortedSet.ZSet.MoveMember | t_zset.c:453-473 | A changed score replaces the node by a new one of the given level, and the entry in the dictionary points to it. |
| SortedSet.ZSet.Remove | t_zset.c:533-547 | The member leaves both structures; the answer tells whether it was there. When resizing is allowed, the dictionary is afterwards not sparse, or already moving to a smaller table. |
| SortedSet.ZSet.RemoveRangeByScore | t_zset.c:557-597 | Exactly the members with scores in the interval leave both structures, their number is returned, and a sparse dictionary starts to shrink when that is allowed. |
| SortedSet.ZSet.RemoveRangeByRank | t_zset.c:599-661 | Exactly the members of the ranks leave both, negative positions counted from the end, their number is returned, and a sparse dictionary starts to shrink when that is allowed. |
| SortedSet.ZSet.Rank | t_zset.c:1220-1259 | The number of members ordered before the member, or after it when reversed; nothing for a member that is not there. |
| SortedSet.ZSet.ElementOfRankOf | t_zset.c:285-326 | The rank of a member leads back to the member's node. |
| SortedSet.ZSet.RankOfElementAt | t_zset.c:285-326 | The node at a rank has that rank, and exactly the ranks 1 to size have a node. |
| SortedSet.ZSet.Range | t_zset.c:906-992 | The keys of the requested positions, in order or reversed. |
| SortedSet.ZSet.RangeByScore | t_zset.c:1051-1142 | Exactly the members of the interval, ascending or descending, cut to a limit that is not negative; the counting form returns their number. |
| SortedSet.ZSet.Run | t_zset.c:371-661 | Over every run of these commands, with any levels and any resizing policy, skiplist and dictionary hold the mapping that the commands mean. |
| DictTable.PushPlaced | dict.c:259-283 | An entry at the head of its own bucket keeps every key in one place, its bucket. |
| DictTable.PullPlaced | dict.c:353-388 | An entry taken out of its bucket leaves every other key in its place. |
| DictTable.LengthIsCount | dict.c:195-206 | The total length of the chains is the number of keys, which is what the field used holds. |
| DictTable.SlotIsMask | dict.c:214 | In a table of a power of two buckets, the bucket of a key is the hash masked bit by bit with the size less one. |
| DictTable.PushHead | dict.c:272-277 | On pointers: the table then holds the mapping with the entry, and used counts it. |
| DictTable.Unlink | dict.c:367-380 | On pointers: the table then holds the mapping without the entry, whether it was first in its chain or not. |
| Dict.NextPower | dict.c:583-593 | The smallest table size, four times a power of two, that is not below the request: no smaller size would do. |
| Dict.Dict.constructor | dict.c:120-140 | An empty dictionary. |
| Dict.Dict.SomeBucket | dict.c:204-206 | While entries are left in the first table, some bucket from rehashidx on is not empty. |
| Dict.Dict.SkipEmpty | dict.c:204-206 | Hence the scan for the next bucket stops inside the table. |
| Dict.Dict.Exchange | dict.c:195-202 | When the first table is empty the second takes its place: the map and the set of entries are the same, in one table. |
| Dict.Dict.MoveBucket | dict.c:207-222 | Moving a bucket to the other table changes neither the map nor the set of entries, nor any later bucket. |
| Dict.Dict.Rehash | dict.c:189-225 | Any number of rehashing steps changes neither the map nor the set of entries; unless the second table takes over, each step has moved exactly one bucket that was not empty, in order. |
| Dict.Dict.RehashStep | dict.c:254-256 | A step does nothing to the tables while safe iterators run; otherwise exactly one more bucket has moved, or the second table has become the first. |
| Dict.Dict.Expand | dict.c:156-183 | A refused or granted expansion leaves the map; granted exactly when not rehashing and large enough, with a new empty table of the smallest size not below the request; refused, nothing changes. |
| Dict.Dict.Resize | dict.c:144-153 | The map is unchanged; done exactly when allowed and not rehashing, to the smallest size not below the number of entries and 4; otherwise nothing changes. |
| Dict.Dict.ExpandIfNeeded | dict.c:560-580 | The map is unchanged. Without a table there is one of 4 buckets. With one and no rehashing, rehashing starts if and only if there are as many entries as buckets and growing is allowed or the ratio exceeds 5, to an empty table of the smallest size not below twice the larger of the two counts. Otherwise nothing changes. |
| Dict.Dict.KeyIndex | dict.c:601-623 | -1 exactly when the key is in the map, in either table; otherwise its bucket in the table that takes new entries, after growing exactly as above. |
| Dict.Dict.Add | dict.c:259-283 | Adds exactly when the key is absent, also in the middle of rehashing; otherwise the map is unchanged. The new entry is in the table that takes new entries, which was made or grown exactly as above; a rehashing that ran has moved one more bucket or ended, and rests under a safe iterator. |
| Dict.Dict.Replace | dict.c:330-350 | The key has the new value, and the answer tells whether it was new, in which case the table has grown as for Add. |
| Dict.Dict.Delete | dict.c:353-388 | The key leaves the map from whichever table holds it; the answer tells whether it was there; a rehashing that ran has made a step unless safe iterators run. |
| Dict.Dict.Find | dict.c:432-451 | The entry of the key, NULL exactly when the map lacks it; the map is unchanged although a rehashing step runs, exactly when one is due. |
| Dict.Dict.FetchValue | dict.c:453-458 | The value the map holds. |
| Dict.Dict.ShrinkIfSparse | redis.c:317-324 | Neither the map nor the set of entries changes. Rehashing to the smallest size that holds the entries starts exactly when allowed, not under way, and fewer than ten in a hundred buckets are used; otherwise nothing changes. |
| DictIterator.AllAhead | dict.c:460-478 | Before the first step everything is still to come. |
| DictIterator.TakeOne | dict.c:498-506 | Returning the next entry of a chain takes it, and nothing else, from what is to come. |
| DictIterator.AheadGrown | dict.c:480-509 | Chains that grow at the front lose nothing of what is to come. |
| DictIterator.After | dict.c:480-509 | Deleting an entry takes it, and nothing else, from what is to come. |
| DictIterator.DictIterator.Next | dict.c:480-509 | Each call returns one of the entries still to come and removes it from them; NULL exactly when none is left. The first call and no other counts the iterator in. |
| DictIterator.DictIterator.Add | dict.c:259-283 | During an iteration: nothing to come is lost, and only the new entry may join. |
| DictIterator.DictIterator.Replace | dict.c:330-350 | The same for a replacement, whether the key is new or not. |
| DictIterator.DictIterator.Resize | dict.c:144-153 | During an iteration: a resize that starts a rehashing changes nothing of what is to come. |
| DictIterator.DictIterator.Delete | dict.c:353-388 | During an iteration: only the deleted entry is lost. |
| DictIterator.Iterate | dict.c:480-516 | A complete safe iteration, with any finds, adds, replacements, resizes and deletions of the returned entry in between, returns no entry twice and every entry that was there at the start, and leaves the number of safe iterators as it was. |
| LzfFormat.TokenLayout | lzf_c.c:89-96 | The bits of the three token forms: where the length and the thirteen bits of the offset stand. |
| LzfFormat.CopyBackMatches | lzf_d.c:133-143 | The forward copy of a back reference, also over bytes it has just written, reproduces a repetition in the input. |
| LzfFormat.TurnOfToken | lzf_d.c:64-146 | The three token forms are decoded by one turn each, whatever follows them. |
| LzfFormat.DecodeOfEncode | lzf_d.c:56-149 | Decoding an encoded token list yields its expansion, when that fits. |
| LzfFormat.DecodeSound | lzf_d.c:56-149 | Everything the decoder accepts is the encoding of a token list, and its expansion is the answer. |
| LzfFormat.MoreRoom | lzf_d.c:56-149 | An answer other than E2BIG stays the same with a larger output buffer. |
| LzfFormat.EnoughRoom | lzf_d.c:56-149 | With room for 264 bytes for each byte of the input, the answer is never E2BIG. |
| LzfFormat.WhichError | lzf_d.c:66-125 | When a token neither fits nor is complete or reaches too far back: EINVAL for a back reference that is cut off, E2BIG in every other case. |
| Lzf.Decompress | lzf_d.c:56-149 | The loop on the buffers agrees with that decoder, errors included, and returns the number of bytes written. |
| LzfParse.RolledNext | lzf_c.c:48-53 | The rolling value that FRST and NEXT keep in 32 bits yields, at every position, the slot of the three bytes there. |
| LzfParse.SlotsApart | lzf_c.c:53 | Two triples of bytes that differ in exactly one byte never share a slot. |
| LzfParse.TabledStore | lzf_c.c:149 | Storing the position keeps the invariant of the hash table: every slot holds the latest visited position of that slot, or its first content. |
| LzfParse.RepeatedParse | lzf_c.c:145-274 | For one repeated byte and any first content of the table: at most two literals, then matches as long as possible until at most four bytes are left. |
| LzfParse.RepeatedSize | lzf_c.c:145-274 | Hence the parse takes at most three bytes for every 264 of the input, and eleven more. |
| Lzf.MatchLength | lzf_c.c:168-211 | The match extension finds a true repetition of 3 to 264 bytes inside the input, and the longest: it ends at the first difference or at the limit of the source: 264, or two bytes less than is left of the input, but 19 where that would be 17 or 18. |
| Lzf.MatchStep | lzf_c.c:167-247 | Stopping a run, possibly an undone empty one, and emitting a reference keeps the output an encoding of what has been read, at no more than one byte per 32, and adds the tokens of exactly that match; it fails only when the output has fewer than five bytes left. |
| Lzf.Scan | lzf_c.c:144-274 | The main loop makes a match at a position exactly when the latest visited position of its slot passes the tests, and of the longest length; it gives up only with fewer than five bytes of output left. |
| Lzf.Compress | lzf_c.c:99-294 | For every input and every hash-table content: a result n > 0 decompresses to exactly the input and encodes exactly the parse in which each position that holds a match by its slot is matched, at the longest length; n is at most out_len and at most the input and one byte per 32. It is 0 only when the parse so far leaves fewer than five bytes of the output; an input of one repeated byte always succeeds with three bytes for every 264 and 16 more. Nothing behind out_len is written, but for the next byte when a match is found with the output full, and then n is 0. |
| Pqsort.Med3 | pqsort.c:89-97 | The index of a median of three. |
| Pqsort.Scan | pqsort.c:129-155 | The two scans and their swaps leave five bands: equal, less, greater, equal around the pivot, with nothing unseen. |
| Pqsort.VecSwap | pqsort.c:79-87 | Two disjoint blocks change places, everything else stays. |
| Pqsort.Partition | pqsort.c:116-168 | The array is permuted in the range, and after any swap it is less, equal, greater. |
| Pqsort.InsertionSort | pqsort.c:156-162 | The range is sorted and permuted. |
| Pqsort.Sort | pqsort.c:100-189 | With recursion pruned to the requested range and the loop on the rest: permuted, and every requested position is placed. |
| Pqsort.PqSort | pqsort.c:192-197 | For any total preorder: a permutation in which every position from lrange to rrange is no smaller than anything before it and no larger than anything behind it. |
| SdsArgs.RoundTrip | sds.c:423-576 | A line printed from strings without the five escapes that are cut short splits into exactly these strings, empty ones, quotes, backslashes, NULs and literal \x text included. |
| SdsArgs.RoundTripExactly | sds.c:423-576 | It does so if and only if no string contains one of those five bytes. |
| SdsArgs.NewlineIsLost | sds.c:423-446 | The line printed from one newline does not split at all. |
| SdsArgs.NeverCatchesUp | sds.c:423-576 | A reader that has fallen behind the printed form never produces the string again. |
| SdsArgs.CatRepr | sds.c:423-446 | The printing loop appends the quoted form. |
| SdsGrammar.LineSplits | sds.c:479-576 | A line built from words with blanks between them splits into exactly what the words denote. A word is bare bytes, then possibly a quoted string of plain bytes, of backslashes with a letter (n, r, t, b, a and any other), and of \x with two digits of either case. |
| SdsGrammar.FindItems | sds.c:491-576 | Conversely, every line that splits is built from such words, and they denote the result. |
| SdsGrammar.SplitMeans | sds.c:479-576 | So splitting yields args if and only if the line is one of the grammar whose words denote args; every other line is refused. |
| SdsGrammar.PrintsShortest | sds.c:423-446 | Each byte but the five cut short is printed as the shortest visible piece that denotes it, hexadecimal digits in lower case; of those five only the backslash of the piece is printed. |
| SdsArgs.GetToken | sds.c:501-557 | The inner loop, with its flags for quotes and end, yields the token and stops where the next search begins, or fails. |
| SdsArgs.SplitArgs | sds.c:491-576 | The splitting loop yields all tokens of the line, or nothing when one is malformed. |
| Intset.Extends | intset.c:107-130 | A value that needs a wider encoding belongs at one end of the sorted values: in front exactly when negative. |
| Intset.Intset.Search | intset.c:65-104 | The position of the value, or the one position at which it can be inserted. |
| Intset.Intset.Widen | intset.c:118-121 | The back-to-front rewriting in place leaves every value at its new place, none overwritten before it is read. |
| Intset.Intset.UpgradeAndAdd | intset.c:107-130 | The wider buffer holds the old values and the new one at its end of them, sorted. |
| Intset.Intset.MoveTail | intset.c:132-149 | The values from one position on stand at the other, those before it are untouched. |
| Intset.Intset.Add | intset.c:152-179 | The set gains the value; success exactly when it was absent. The encoding is the wider one of the old and the least that holds the value. |
| Intset.Intset.Remove | intset.c:182-197 | The set loses the value; success exactly when it was present; the encoding stays. |
| Intset.Intset.Find | intset.c:200-203 | Membership. |
| Intset.Intset.Len | intset.c:221-223 | The number of members. |
| Zipmap.DecodeLenBytes | zipmap.c:106-129 | A length in one or five bytes is read back. |
| Zipmap.LenLayout | zipmap.c:116-129 | A length below 254 is one byte, any other is 254 and four bytes, low byte first. |
| Zipmap.LayoutExample | zipmap.c:43-71 | The bytes of the map "foo" => "bar", "hello" => "world" are those of the comment. |
| Zipmap.PairPieces | zipmap.c:144-161 | What the loops read at an entry is its key and the place of its value, whatever follows. |
| Zipmap.MapSize | zipmap.c:349-361 | With distinct keys, the number of entries is the size of the map. |
| Zipmap.Zipmap.LookupRaw | zipmap.c:137-165 | The entry of the key, NULL exactly when no entry has it, and the total size when asked for. |
| Zipmap.Zipmap.Set | zipmap.c:210-276 | The key has the value in the map, and the answer tells whether the key was there. A new entry comes last, without unused bytes, and is counted unless the counter is saturated; an old one is rewritten in its place, and what it no longer needs stays unused behind it when that is less than four bytes, and is given up otherwise. |
| Zipmap.Zipmap.RewriteBytes | zipmap.c:228-275 | Growing, shrinking or reusing the room of an entry leaves the bytes before and behind it as they were. |
| Zipmap.Zipmap.Del | zipmap.c:280-296 | The key leaves the map, with its entry and no other; the answer tells whether it was there; the counter is one lower unless saturated. |
| Zipmap.Zipmap.Get | zipmap.c:333-341 | The value the map holds, nothing exactly when the key is absent. |
| Zipmap.Zipmap.Len | zipmap.c:349-361 | The number of keys, also after the one-byte counter has saturated; it then holds the number again if that is below 254. |

## Left out

- Ziplist.Ziplist.InsertAt: two narrowing insertions have no determined effect and are excluded by `MayInsert`: that of the empty string, where the memmove reads past the end of the resized buffer, and one that loses the only byte of the last body, which the empty string has; the encoding byte is then 255, which no decoder accepts.
- Ziplist.Ziplist.CascadeUpdate: buffers near 2^31 bytes; a precondition keeps room below that for every field that may widen, as in all operations that grow a ziplist.
- Ziplist.Ziplist.Index: `INT_MIN` as an index, whose negation overflows; the same for DeleteRange.
- Lzf.Compress: the output array has one byte more than `out_len` for the store at line 173, and a one-byte input reads one byte more than it has at line 144; both bytes are given. The unrolled comparisons of the match extension are one loop of at most 16 steps followed by the rest.
- Dict.Dict.Add: sizes of 2^62 and more, and `_dictKeyIndex` returning an int: bucket indices are unbounded here.
- Dict.Dict.Resize: `int minimal` at line 146, which would truncate counts of 2^31 and more.
- SortedSet.ZSet.Add: scores are reals, so NaN and infinities do not occur and comparison is exact; the comparison of objects is any strict total order whose equality is equality of objects.
- SortedSet.ZSet.RangeByScore: the offset, which the command never sets; the parsing of interval bounds.
- SkipList.Zsl.Insert: the random choice of the level, a parameter in 1..32.
- SdsArgs.SplitArgs: `isprint` and `isspace` in any other locale than C; the line is the bytes before the terminating NUL.
- Decimal.StrtollPrint: `strtoll` is modelled from its library description, in base 10.
- Decimal.LongLongToString: the negation of `LLONG_MIN` at util.c:189 overflows a signed integer in C; the model takes the magnitude.
- ListObject.ListObject.Insert: the two insertions without a determined effect, as for the ziplist; the linked list is the sequence of its values and a place in it is an index, so the pointers of adlist.c are not part of this model.
- ListObject.ListObject.Push: the size limit checked by the command before it.
- Zipmap.Zipmap.Get: the value is returned as bytes and not as a pointer into the buffer; the cursor form `zipmapNext` is modelled by the step `Skip` only.
- The forward and span arrays of a skiplist node, the bucket arrays of a hash table and the update and rank arrays of a search are sequences held in fields or variables; their elements are updated one at a time as in the source.
- Memory allocation failures, reference counting, freed memory, and the object encodings other than those named.
- dictGetRandomKey, dictSuperReplace, dictUpdateKey, dictRelease, unsafe iterators, and rehashing by the clock.
- Command parsing, replies, versions, expiry, persistence, networking, logging, eviction and replication.
- t_string.c, t_hash.c and t_set.c dispatch over the structures above; zunionInterGenericCommand; sort.c; the statistics, printing and test sections.
