# A verified model of the partitioned key store and its text algorithms

The store (`src/idb_helpers.c`) keeps every key as a directory. When a parent directory already
holds `IDBMaxPageCount` keys, a new key `k0 k1 ... kn` goes to `parent/.k0/.k1/.../ki...kn`: a trie over
the file system whose depth depends on how full the levels are. Placing, looking up and enumerating
are three separately written walks that have to agree on this layout. The project models the three
walks, proves that a run of them behaves like a plain map from (key, attribute) to value, and
characterises exactly what happens outside the circumstances in which it does.

Around this core it models the UTF-8 codec and the normalisation of `src/deps/utf8proc.c`, and the
printers, parsers and containers the store uses.

| file | content |
|---|---|
| `Bytes.dfy`, `Utf8.dfy`, `Utf8Table.dfy` | bytes; the UTF-8 codec, character steps, `utf8StrLen`; the codec byte by byte |
| `PartitionTree.dfy` | the directory tree and the walks over it as functions |
| `KeyStore.dfy` | the class `Store`, whose methods carry out the walks with the source's loops |
| `Placement.dfy` | where exactly a put goes, by counts of keys |
| `AnyTree.dfy` | what holds in every tree: reading back a write, other keys, other attributes |
| `Refinement.dfy` | the invariant of put/delete-attribute runs and the refinement of a map |
| `Capacity.dfy` | page limits over every run, key deletes included |
| `Families.dfy` | several parent directories side by side |
| `Runs.dfy` | key existence, key deletes, writes under changing limits and policies |
| `Samples.dfy` | concrete stores, reached by runs, for the exceptions |
| `Enumeration.dfy` | the subkey walk with its wrapping `size_t` counter, `iSubkeys`, `iSubkeyTotal` |
| `PathStrings.dfy`, `RelativePath.dfy` | path strings and segment sequences; `GetRelativePath` |
| `CanonicalOrder.dfy`, `Composition.dfy`, `Decomposition.dfy`, `Reencoding.dfy` | the stages of `utf8proc_map` |
| `ComposeLaws.dfy`, `DecomposeLaws.dfy`, `PipelineLaws.dfy` | what each stage does to which characters under which options |
| `CanonicalMeaning.dfy`, `Normalization.dfy` | what composing keeps; composed and decomposed forms against each other |
| `QuotedArgs.dfy`, `QuoteLaws.dfy`, `SplitLen.dfy`, `UrlCoding.dfy` | `sdscatrepr`/`sdssplitargs` and their notation, `sdssplitlen`, `UrlEncode`/`UrlDecode` |
| `DirListing.dfy`, `GrowingArray.dfy` | the paging of `WalkDir`; the growth of `darray` |

Code that updates things in place is a method with the source's loop, proved against a function;
the theorems about that function then hold of the method. `hide` statements only keep the proofs quick.

What the results say about the store, in short:

* In any well-formed tree, whatever its history, an accepted put is read back and no other key changes
  (`AnyTree.GetAfterPut`, `AnyTree.OtherKeysUnchanged`), for as long as nobody writes to or deletes
  that value, no key delete takes its directory and no put of the key opens a new one (`Runs.WriteSurvives`).
* The other attributes of the same key survive a put unless it opens a new directory below the first
  level (`AnyTree.SameKeyOtherAttribute`). After a key delete that does happen: an
  attribute is lost in the store of `Samples.AttributeLostAfterKeyDelete`, which three puts lead to
  (`Samples.SampleIsReached`). An attribute that `iGet` reads may then also be out of the reach of `iDelete`
  (`Runs.GetAfterDelete`, `Samples.AttributeNotDeleted`).
* Runs of puts, gets, existence tests and attribute deletes with a fixed limit cannot lose anything: they refine a map
  for each of any parents side by side (`Refinement.RunRefines`, `Families.FamilyRunRefines`), each key lives in one
  directory, and the walk lists each key once.
* `iKeyDelete` of a key that is *not* stored but whose characters name a partition directory removes all keys
  below that directory (`Runs.KeyDeleteExactly`, `Samples.UnstoredKeyDelete`); `iKeyIsExists` answers true for it
  (`Runs.KeyExistsExactly`).
* Composing keeps the meaning of every text, for every table whose compositions undo decompositions, but for one
  character: U+11A7 is lost exactly when it follows an LV syllable (`CanonicalMeaning.ComposeKeepsMeaning`), because
  `utf8proc_reencode` takes `hangul_tindex` 0 for a trailing consonant. Hence the composed and the decomposed form of
  `utf8proc_map` agree exactly on the other texts (`Normalization.FormsAgree`); each of them is stable on every text
  (`Normalization.ComposedFormIsStable`).
* `GetRelativePath` counts its steps up below zero exactly when `from` ends in a separator and `to` lies below it
  (`RelativePath.BelowFrom`).
* `UrlDecode` undoes `UrlEncode` exactly for strings without bytes from 128 to 254, which are printed with their sign
  (`UrlCoding.HighByteLost`).
* `roundup32`, applied to a 64-bit `size_t`, gives the next power of two exactly when the argument minus one has no run
  of 32 zero bits below its top bit and the result fits (`GrowingArray.RoundUp32`).

## Model

| member | source | states |
|---|---|---|
| KeyStore.ReadDir | src/isdk_utils.c:462-551 | a directory read returns every entry of the directory exactly once, in some order |
| KeyStore.Store.constructor | src/idb_helpers.c:43-55 | a new store has its root directory and the two global options, and its root stands for the empty map |
| KeyStore.Store.SubkeyCount | src/idb_helpers.h:159-163 | the count is the number of directories whose names do not begin with a dot |
| KeyStore.Store.FindKeyDirToPut | src/idb_helpers.c:266-352 | the loop over `s`, `vKeySize` and `vDir` picks the directory `Place` gives, on every tree and key, errors included |
| KeyStore.Store.IsKeyDirExists | src/idb_helpers.c:372-425 | the loop finds the directory `Find` gives, the partition directory itself when the key is used up |
| KeyStore.Store.ForceDirectories | src/isdk_utils.c:100-125 | exactly the missing prefixes of the path appear, with no attributes; everything else stays |
| KeyStore.Store.Put | src/idb_helpers.c:632-651 | new tree and status are those of the specification; the tree stays well formed, and under the invariant the map gains one entry or the refused put leaves it alone |
| KeyStore.Store.Get | src/idb_helpers.c:499-508 | the attribute in the direct directory, else in the one the partition look-up finds when there is a limit; under the invariant, the map's value |
| KeyStore.Store.IsExists | src/idb_helpers.c:457-469 | true just when a get would find a value; under the invariant, when the map has the entry |
| KeyStore.Store.LocateKey | src/idb_helpers.c:688-700 | the direct directory if there is one, else what the look-up finds |
| KeyStore.Store.Delete | src/idb_helpers.c:688-700 | one attribute file of the located directory goes and the answer says whether it existed; under the invariant, one entry of the map goes |
| KeyStore.Store.KeyDelete | src/idb_helpers.c:702-713 | the located directory goes with everything below it; the tree stays well formed |
| KeyStore.Store.KeyIsExists | src/idb_helpers.c:715-729 | true just when a directory is located |
| AnyTree.PlaceShape | src/idb_helpers.c:286-351 | the chosen path runs through partition directories of one character each and, dots and slashes removed, spells the key |
| AnyTree.PlaceLevels | src/idb_helpers.c:286-310 | every level above the chosen directory is full |
| AnyTree.PlaceLast | src/idb_helpers.c:286-348 | the chosen directory exists, or its level has room, or the lenient policy forces a one-character suffix |
| AnyTree.PlaceShallowest | src/idb_helpers.c:268-351 | in any tree, a put goes to the shallowest directory that spells its key, and is not refused if there is one |
| AnyTree.FindShallowest | src/idb_helpers.c:372-425 | the look-up finds the shallowest such directory below the first level |
| AnyTree.PlaceRefusal | src/idb_helpers.c:318-343 | for a valid key the only refusal is IDB_ERR_PART_FULL, under the strict policy |
| Placement.PlaceExactly | src/idb_helpers.c:266-352 | a put goes to the first level that holds the key, does not exist or has fewer keys than the limit; if there is none, the last character is forced or the put refused with -100 |
| Placement.GoesToTheTop | src/idb_helpers.c:286 | a key without a directory goes right into a parent that does not exist or has fewer keys than the limit |
| Placement.LevelsAboveAreFull | src/idb_helpers.c:283-351 | after every run, each level above a stored key has at least as many keys as the limit |
| Placement.InvalidKeyRefused | src/idb_helpers.c:288-318 | a key that does not begin with UTF-8 is refused where a full level would have to be passed |
| Placement.NoLimitIsLiteral | src/idb_helpers.c:457-700 | with a limit of zero or less every key is literal |
| AnyTree.FindShape | src/idb_helpers.c:372-425 | what the look-up returns exists and spells the key, or is a partition directory |
| AnyTree.GetAfterPut | src/idb_helpers.c:499-651 | in any tree, an accepted put is read back by the next get |
| AnyTree.OtherKeysUnchanged | src/idb_helpers.c:632-651 | in any well-formed tree, a put changes no get of any other key, of this or another parent, whatever limit that get uses |
| AnyTree.SameKeyOtherAttribute | src/idb_helpers.c:632-651 | a put hides the key's other attributes exactly when it opens a new directory below the first level, and otherwise leaves them |
| AnyTree.PutWellFormed | src/idb_helpers.c:632-651 | a put keeps parents existing and partition directories free of attributes |
| Refinement.FreshStoreInv | src/idb_helpers.c:266-352 | an empty directory satisfies the invariant and stands for the empty map |
| Refinement.StoredKeyIsFound | src/idb_helpers.c:286-351 | a stored key's directory is the one a repeated put picks and, if not direct, the one the look-up finds |
| Refinement.AbsentKeyIsNotFound | src/idb_helpers.c:372-425 | for a key not stored the look-up finds nothing but possibly a partition directory |
| Refinement.GetRefines | src/idb_helpers.c:499-508 | under the invariant a get reads the map |
| Refinement.DeleteRefines | src/idb_helpers.c:688-700 | an attribute delete removes one entry of the map, keeps the invariant and answers whether the entry was there |
| Refinement.PutRefines | src/idb_helpers.c:632-651 | an accepted put updates the map at one entry; a refused one changes nothing; the invariant is kept |
| Refinement.RefusedExactly | src/idb_helpers.c:286-348 | a put is refused if and only if the policy is strict and all the key's levels are full without holding it |
| Refinement.PutKeepsFullness | src/idb_helpers.c:283-351 | a key at depth d keeps d full levels above it |
| Refinement.PutKeepsUnique | src/idb_helpers.c:283-351 | no key ever gets a second directory |
| Refinement.StepRefines | src/idb_helpers.c:457-700 | one operation of the store is one operation of the map, with the same answer |
| Refinement.RunRefines | src/idb_helpers.c:457-700 | every run of put, get, attribute delete and existence test answers as a map does, and ends in the map's contents |
| Families.FamilyRunRefines | src/idb_helpers.c:457-700 | runs over several parents, none below another, answer as one map for each parent, side by side |
| Families.FamilyStepRefines | src/idb_helpers.c:457-700 | an operation on one parent keeps the invariant and the map of every other |
| Capacity.ChildrenAfterPut | src/idb_helpers.c:286-348 | a put adds a key to one level only, the one above the directory written to |
| Capacity.PutKeepsBounds | src/idb_helpers.c:286-348 | a put keeps every level within the limit (strict), or its names of two or more characters within it (lenient) |
| Capacity.RunKeepsBounds | src/idb_helpers.c:286-348 | the same over every run, key deletes included |
| Runs.FindExactly | src/idb_helpers.c:372-425 | on every closed tree the look-up returns the first level below the top that holds the key, else the partition directory its characters name, else nothing |
| Runs.PartitionFound | src/idb_helpers.c:372-425 | a partition directory is found if and only if the key's characters name one and no level below the top holds the key |
| Runs.KeyExistsExactly | src/idb_helpers.c:715-729 | exactly for which keys iKeyIsExists is true, for every limit |
| Runs.KeyDeleteExactly | src/idb_helpers.c:702-713 | in every store, whatever its history, exactly which keys a key delete removes, by conditions on the directories: the direct one, else the first level that holds the key, else the whole partition its characters name |
| Runs.FirstKeyDelete | src/idb_helpers.c:702-713 | before any other key delete, exactly the stored key goes, or for a key not stored exactly the keys of that partition |
| Runs.RunKeepsShape | src/idb_helpers.c:632-713 | the layout of partition directories is kept by all runs, key deletes included |
| Runs.KeyDeleteOtherKeys | src/idb_helpers.c:702-713 | a key delete, of a partition directory or not, changes no get of a key whose direct and found directories it does not take |
| Runs.StoredKeyDelete | src/idb_helpers.c:702-713 | in particular, deleting a key that has a directory of its own changes no get of another key that is not below it |
| Runs.GetAfterDelete | src/idb_helpers.c:499-700 | in any well-formed tree, what iGet answers after iDelete of the same attribute: nothing, unless the key has a direct directory and another one below that holds the attribute |
| Runs.DeleteOtherAttribute | src/idb_helpers.c:688-700 | an attribute delete changes no get of another attribute of the key |
| Samples.UnstoredKeyDelete | src/idb_helpers.c:702-713 | in the sample store, deleting "a", which is not stored, removes "aq" and "abc" |
| Samples.SampleIsReached | src/idb_helpers.c:632-651 | three puts into an empty store lead to the sample store |
| Runs.DeleteOtherKeys | src/idb_helpers.c:688-700 | in any well-formed tree, an attribute delete changes no get of any other key |
| Runs.WriteSurvives | src/idb_helpers.c:457-713 | a written value is still read after any calls, with any limits and policies, on other keys, on other attributes of the key, and deletes of whole keys, unless a put opens a new directory of the key below the first level or a delete takes the directory the value is in |
| Samples.AttributeLostAfterKeyDelete | src/idb_helpers.c:283-351 | in the sample store, after a key delete, a put of one attribute hides another attribute of the same key |
| Samples.DoubleIsReached | src/idb_helpers.c:632-713 | two puts, a key delete and a put lead to a store in which "abc" has two directories |
| Samples.AttributeNotDeleted | src/idb_helpers.c:688-700 | in that store iDelete answers false for an attribute that iGet reads, and changes nothing |
| Enumeration.IndexOf | src/isdk_utils.h:142-154 | the first position of the string, -1 if and only if it is not in the list |
| Enumeration.ListSubkey | src/idb_helpers.c:961-998 | the list after one key, for the three duplicate policies and for no processor |
| Enumeration.SubkeyWalker | src/idb_helpers.c:840-866 | the key is reported as the partition characters so far and the directory's name |
| Enumeration.LevelWalk | src/idb_helpers.c:886-892 | a level's unlimited walk reports every key of the level once, stopping early only on a duplicate |
| Enumeration.PartitionWalk | src/idb_helpers.c:868-884 | the walk of one partition adds its keys to the report and never stops the walk of its siblings |
| Enumeration.SubkeyWalk | src/idb_helpers.c:886-929 | the unlimited walk reports each key directory once under the name its path spells, and counts them, although leftCount wraps below zero |
| Enumeration.SubkeyTotal | src/idb_helpers.c:953-959 | the total is the number of key directories, -1 for a missing parent |
| Enumeration.Subkeys | src/idb_helpers.c:999-1011 | NULL exactly for a missing parent or, under dkStopped, a key stored twice; otherwise exactly the stored keys, without repetition unless duplicates are wanted |
| Enumeration.ProcessAllFromNothing | src/idb_helpers.c:961-998 | what each duplicate policy makes of a sequence of reported names |
| Enumeration.UniqueCount | src/idb_helpers.c:953-959 | where no key is stored twice the number of key directories is the number of keys |
| Enumeration.RunKeys | src/idb_helpers.c:632-959 | after a run, the listed keys are those of the accepted puts, and their number is the total |
| Utf8.DecodeExact | src/deps/utf8proc.c:119-194 | a string decodes to a code point if and only if the code point is valid and its encoding begins the string |
| Utf8.Iterate | src/deps/utf8proc.c:119-157 | the decoder accepts exactly the strings that begin with a valid encoding, reads that many bytes, and within strlen or up to the NUL |
| Utf8.DecodeSound | src/deps/utf8proc.c:119-157 | what is decoded is valid and its encoding is the bytes read, as many as the lead byte says |
| Utf8.DecodeComplete | src/deps/utf8proc.c:166-194 | the encoding of a valid code point decodes to it, whatever follows |
| Utf8Table.DecodesTheTable | src/deps/utf8proc.c:119-157 | the decoder accepts exactly the byte sequences of the table in RFC 3629 that are no noncharacters, with the value of their payload bits |
| Utf8Table.ExcludedRangesRefused | src/deps/utf8proc.c:144-145 | surrogates, and U+FDD0 to U+FDEF, are refused |
| Utf8.IterateUtf8Char | src/isdk_utils.h:327-335 | the copied character is the text's own bytes and its length the bytes consumed |
| Utf8.FirstCharAlone | src/isdk_utils.h:327-335 | a first character decodes the same on its own, and the text is valid exactly when what follows it is |
| Utf8.StrLen | src/isdk_string.c:180-191 | the loop counts the lead bytes before the NUL |
| Utf8.LeadBytesOne | src/isdk_string.c:186-187 | bytes below 0x80 and from 0xC0 to 0xF7 are counted |
| Utf8.StrLenCountsCharacters | src/isdk_string.c:180-191 | on valid text that is the number of decoding steps |
| PartitionTree.TailIsKey | src/idb_helpers.c:288-296 | the rest of a key is a key, its first character names a partition, and the two give back the key |
| PartitionTree.PartSplits | src/idb_helpers.c:868-874 | a partition name and a suffix determine, and are determined by, the key they spell |
| PathStrings.JoinPathLen | src/isdk_utils.c:160-179 | joining a name to a path string adds one segment, whether or not the path ends in a separator; joining nothing leaves the directory the same |
| PathStrings.ExtractLastPathName | src/isdk_utils.h:357-378 | any path is what is left, the last name and separators; for a directory path, what is left stands for the parent |
| PathStrings.PathsAreDistinct | src/isdk_utils.c:160-179 | different directories have different path strings |
| RelativePath.GetRelativePath | src/idb_helpers.c:742-783 | the string loops produce the segments `Relative` gives, a separator at the end of `from` ignored; the count of steps up falls below zero exactly when `from` ends in a separator and `to` lies below it |
| RelativePath.CommonWithout | src/idb_helpers.c:750-773 | what an empty last segment of `from` changes in the shared part |
| RelativePath.StrippedIs | src/idb_helpers.c:746-747 | leading separators are dropped and nothing else |
| RelativePath.SharedIsLongest | src/idb_helpers.c:750-764 | the part shared is the longest possible, the last segments left aside |
| RelativePath.FewestSteps | src/idb_helpers.c:742-783 | no way to the target that goes up and then down has fewer steps up |
| RelativePath.BelowFrom | src/idb_helpers.c:742-783 | from "a/" to "a/b" is such a case |
| RelativePath.RelativeLeadsThere | src/idb_helpers.c:742-783 | from the directory of `from`, the relative segments lead to `to` |
| RelativePath.GetRelativePathLeadsThere | src/idb_helpers.c:742-783 | the same for the resulting string, leading slashes and a separator at the end of `from` aside |
| CanonicalOrder.Reorder | src/deps/utf8proc.c:398-416 | the loop with its step back terminates and leaves the canonical order, nothing behind it touched |
| CanonicalOrder.CanonOrdered | src/deps/utf8proc.c:398-416 | no neighbours are left with a greater class before a smaller non-zero one |
| CanonicalOrder.ClassesAscend | src/deps/utf8proc.c:398-416 | classes ascend between one starter and the next |
| CanonicalOrder.OrderedIsCanon | src/deps/utf8proc.c:398-416 | an ordered text stays as it is |
| CanonicalOrder.CanonStable | src/deps/utf8proc.c:398-416 | the result is a permutation, and the order within each class is kept |
| CanonicalOrder.CanonKeepsStarters | src/deps/utf8proc.c:398-416 | characters of class zero do not move |
| CanonicalOrder.CanonicalEquivalence | src/deps/utf8proc.c:398-416 | two texts have the same canonical order if and only if swaps of neighbours with different non-zero classes turn one into the other |
| CanonicalOrder.SwapReducesInversions | src/deps/utf8proc.c:404-411 | each swap of the loop lowers the number of inversions |
| Composition.ComposeInPlace | src/deps/utf8proc.c:454-522 | the starter loop leaves the composed text in front and everything behind `length` untouched |
| ComposeLaws.ComposeOneMore | src/deps/utf8proc.c:462-520 | one more character joins the last starter if the two make a composition and no character between has its class or a higher one; otherwise it is added |
| ComposeLaws.TableDecides | src/deps/utf8proc.c:495-507 | of two characters that are not Hangul, exactly the table, and the exclusion under STABLE, decide |
| ComposeLaws.NothingExcluded | src/deps/utf8proc.c:501-502 | under STABLE no excluded character comes in |
| Composition.ComposeAfterExpand | src/deps/utf8proc.c:222-522 | decomposing and composing is the identity on every text without open Hangul pairs or table compositions |
| Composition.HangulRoundTrip | src/deps/utf8proc.c:222-522 | in particular on all sequences of precomposed syllables |
| CanonicalMeaning.ComposeKeepsMeaning | src/deps/utf8proc.c:454-522 | for every table whose compositions decompose to their parts: composing keeps the full decomposition up to canonical equivalence if and only if no U+11A7 follows an LV syllable; literally, where no character begins a table composition |
| CanonicalMeaning.ComposeKeepsExpansion | src/deps/utf8proc.c:464-492 | for texts whose characters begin no table composition, the Hangul decomposition is kept literally, under the same condition |
| CanonicalMeaning.LostInComposition | src/deps/utf8proc.c:464-492 | U+AC00 U+11A7 composes to U+AC00, whatever the tables |
| CanonicalMeaning.StepMeaning | src/deps/utf8proc.c:462-520 | one turn of the loop keeps the decomposition up to the order of marks, or swallows U+11A7 and changes nothing |
| CanonicalMeaning.MarksPass | src/deps/utf8proc.c:398-416 | marks of different classes may pass each other without changing the canonical order |
| CanonicalMeaning.EquivalentInFront | src/deps/utf8proc.c:398-416 | canonically equivalent texts stay equivalent with any text behind them |
| Normalization.FormsAgree | src/deps/utf8proc.c:535-562 | decomposing is idempotent and the same for both forms; decomposing the composed form gives the decomposed form if and only if no U+11A7 was swallowed |
| Normalization.ComposedFormIsStable | src/deps/utf8proc.c:535-562 | composing a composed form again changes nothing, for every text |
| CanonicalMeaning.Thin | src/deps/utf8proc.c:454-522 | every text composes to what a text without swallowed characters composes to, in the same order of marks |
| Normalization.PlainText | src/deps/utf8proc.c:209-396 | with plain canonical options a text decomposes character by character, however deep the mappings recurse |
| Normalization.OnlyCanonicalMappings | src/deps/utf8proc.c:288-302 | a mapping that is not canonical plays no part in the canonical forms |
| Normalization.DecompIsFinal | src/deps/utf8proc.c:209-356 | nothing of a decomposition decomposes further |
| Decomposition.DecomposeChar | src/deps/utf8proc.c:209-356 | the count does not depend on the room, the room receives a prefix, nothing else is written |
| DecomposeLaws.SyllableDecomposes | src/deps/utf8proc.c:222-236 | a precomposed syllable decomposes by arithmetic under every other option |
| DecomposeLaws.MappingApplies | src/deps/utf8proc.c:288-302 | with a form asked for, a mapping is applied if and only if it is canonical or COMPAT is on, its entries in turn; other characters are kept |
| DecomposeLaws.NothingAsked | src/deps/utf8proc.c:222-356 | without options every character is kept |
| DecomposeLaws.IgnorableIsDropped | src/deps/utf8proc.c:240-242 | IGNORE drops ignorable characters |
| DecomposeLaws.MarkIsStripped | src/deps/utf8proc.c:269-273 | STRIPMARK drops the three categories of marks |
| DecomposeLaws.CaseIsFolded | src/deps/utf8proc.c:274-287 | CASEFOLD replaces a character by its folding, decomposed in turn |
| DecomposeLaws.LumpedIsTarget | src/deps/utf8proc.c:243-268 | LUMP replaces exactly the listed characters and categories, by the listed ones |
| DecomposeLaws.OthersAreNotLumped | src/deps/utf8proc.c:243-268 | other characters are not touched by LUMP |
| DecomposeLaws.OutputIsSettled | src/deps/utf8proc.c:209-356 | nothing is left in the output that the options would still drop, fold or map |
| DecomposeLaws.BoundariesAreMarked | src/deps/utf8proc.c:303-352 | CHARBOUND marks the first character and each that does not cling to the one before: not CR LF, not extending characters, not the parts of a Hangul syllable |
| DecomposeLaws.CountLimit | src/deps/utf8proc.c:394-395 | the largest count is that of which twice as many 32-bit words can still be counted in bytes |
| DecomposeLaws.MarksAreAllItAdds | src/deps/utf8proc.c:303-352 | without the marks the output is the same as without CHARBOUND |
| Decomposition.DecomposeAll | src/deps/utf8proc.c:288-352 | the same for the recursion over a mapping |
| Decomposition.WriteHangul | src/deps/utf8proc.c:222-236 | the same for a syllable, whose jamo are those `ExpandChar` gives |
| Decomposition.WriteKept | src/deps/utf8proc.c:325-356 | the same for a character kept as it is, with its grapheme boundary mark |
| Decomposition.NextCodePoint | src/deps/utf8proc.c:372-384 | one read takes the next code point, up to strlen or the NUL |
| Decomposition.Decompose | src/deps/utf8proc.c:358-418 | success exactly for valid options, valid text and a count that fits; size and fill pass agree; with room the result is in canonical order |
| Reencoding.NewlinesInPlace | src/deps/utf8proc.c:423-453 | the newline pass writes only where it has read and gives the converted text |
| PipelineLaws.OneCharacter | src/deps/utf8proc.c:430-450 | what each newline, control and other character becomes under each option |
| PipelineLaws.CrLfIsOne | src/deps/utf8proc.c:429 | a carriage return with its line feed is one newline |
| PipelineLaws.NewlinesConcat | src/deps/utf8proc.c:423-453 | otherwise texts are converted piece by piece |
| Reencoding.EncodeChar | src/deps/utf8proc.c:166-194 | exactly the bytes of the encoding are written |
| Reencoding.EncodeInPlace | src/deps/utf8proc.c:523-532 | bytes written over the words being read: the result is the encoding of the original words, the NUL fits in the spare byte |
| Reencoding.Reencode | src/deps/utf8proc.c:420-533 | the three passes in turn |
| PipelineLaws.OptionsSelect | src/deps/utf8proc.c:423-454 | which options ask for the newline pass and for composing, and in which order |
| PipelineLaws.NfcOfTwo | src/deps/utf8proc.c:571-576 | under the options of utf8proc_NFC a starter and the character behind it become one if the tables have a composition that is not excluded |
| PipelineLaws.StableExcludes | src/deps/utf8proc.c:501-502 | under COMPOSE and STABLE no excluded character comes in |
| Reencoding.Map | src/deps/utf8proc.c:535-562 | exactly when it succeeds, and that the result is the encoding of the reworked decomposition, in a buffer sized by the first pass |
| Reencoding.CodePointsOfEncoding | src/deps/utf8proc.c:119-194 | encoding any valid code points and reading them back gives them again |
| Reencoding.HangulIsComposed | src/deps/utf8proc.c:535-562 | with composition the whole pipeline is the identity on texts of precomposed syllables |
| QuotedArgs.CatRepr | src/deps/sds.c:423-446 | the printed form of the string is appended |
| QuoteLaws.ReprIsForms | src/deps/sds.c:423-446 | the printed form is, between quotes, each byte as the escape table has it, as itself from 32 on, or as two lower-case hex digits |
| QuotedArgs.ScanToken | src/deps/sds.c:509-590 | the quote-flag loop takes the token the specification takes, or fails with it |
| QuoteLaws.EscapeIsRead | src/deps/sds.c:526-538 | between double quotes backslash and letter are the byte of the table, any other byte behind a backslash is itself |
| QuoteLaws.HexIsRead | src/deps/sds.c:516-525 | backslash, x and two hex digits of either case are the byte of the digits |
| QuoteLaws.LiteralIsRead | src/deps/sds.c:547-563 | every other byte between quotes is literal |
| QuoteLaws.ApostropheIsRead | src/deps/sds.c:551-553 | between apostrophes a backslash escapes an apostrophe only |
| QuoteLaws.QuoteCloses | src/deps/sds.c:539-558 | a closing quote needs a blank or the end behind it |
| QuoteLaws.QuoteOpens | src/deps/sds.c:574-579 | a quote opens wherever it stands in a word |
| QuoteLaws.WordsAreSplit | src/deps/sds.c:498-606 | words without quotes are split at the blanks and nowhere else, backslashes included in them |
| QuotedArgs.SplitArgs | src/deps/sds.c:498-606 | the tokens of the line, or NULL, as the specification `Split` says |
| QuotedArgs.SplitSucceeds | src/deps/sds.c:498-606 | NULL exactly for the lines in which some quote is not closed, or closed with something else than a blank or the end behind it |
| QuotedArgs.SplitInvertsRepr | src/deps/sds.c:423-606 | any byte strings, printed with any blanks between and around them, are parsed back |
| QuotedArgs.LayoutWithoutNul | src/deps/sds.c:423-606 | such a line holds no NUL, so the parser reads it to its end |
| QuotedArgs.SplitInvertsJoined | src/deps/sds.c:423-606 | the same for single spaces |
| SplitLen.SplitLen | src/deps/sds.c:352-399 | the tokens join to the input and each ends at the first separator reached; the slots always suffice |
| SplitLen.TokensAreClean | src/deps/sds.c:352-399 | no token contains the separator |
| SplitLen.SplitUnique | src/deps/sds.c:352-399 | these properties determine the tokens |
| UrlCoding.UrlEncode | src/isdk_utils.c:606-633 | for every C string the result is exactly the encoding and a NUL, in the room the counting pass asked for |
| UrlCoding.EncodedByte | src/isdk_utils.c:598-625 | a byte is kept if and only if it is from 32 to 126, no percent sign and not in the unsafe set; else it is its escape in upper case |
| UrlCoding.EncodedBytes | src/isdk_utils.c:606-633 | every byte of an encoded text is unreserved or part of an escape |
| UrlCoding.UnreservedIsItself | src/isdk_utils.c:606-633 | a text of unreserved bytes is its own encoding |
| UrlCoding.EncodedConcat | src/isdk_utils.c:606-633 | texts are encoded piece by piece |
| UrlCoding.UrlDecode | src/isdk_utils.c:638-709 | decoding in place never writes past the read position; a percent sign that begins no escape leaves the byte at the write position as it was |
| UrlCoding.EscapeIsDecoded | src/isdk_utils.c:654-670 | an escape stands for the byte of its two digits, of either case |
| UrlCoding.PlainIsDecoded | src/isdk_utils.c:700-702 | a text without percent signs is left alone |
| UrlCoding.LatePercent | src/isdk_utils.c:652-705 | behind an escape, a percent sign that begins none stands for the byte that was at the write position |
| UrlCoding.LonePercentStays | src/isdk_utils.c:652-705 | a first percent sign that begins no escape stays |
| UrlCoding.NoUnicodeEscape | src/isdk_utils.c:606-709 | an encoded string never looks like it holds a `%uXXXX` escape |
| UrlCoding.DecodeInvertsEncode | src/isdk_utils.c:606-709 | for every set of unsafe characters, decoding undoes encoding if and only if there is no byte from 128 to 254; those come back as 255 |
| UrlCoding.HighByteLost | src/isdk_utils.c:606-709 | the byte 128 is encoded as %FF and decoded as 255 |
| DirListing.ListDir | src/isdk_utils.c:450-582 | the page [skip, skip + count) of the entries that pass the options and the pattern; NULL for a directory that cannot be opened, or if an lstat fails before the page is full |
| DirListing.PassesExactly | src/isdk_utils.c:480-533 | which kinds of entries each option admits |
| DirListing.StoreListings | src/isdk_utils.h:93-94 | the two listings of the store: directories and links to them, without or with a leading dot |
| DirListing.FailsExactly | src/isdk_utils.c:480-498 | a walk fails only at an entry it would look at |
| DirListing.FilteredConcat | src/isdk_utils.c:450-551 | listings are made entry by entry |
| DirListing.PageIs | src/isdk_utils.c:450-551 | a page stands from skip on and has up to count names |
| DirListing.CountDir | src/isdk_utils.c:553-556 | the number of entries that pass, -1 for a directory or an entry that cannot be read |
| DirListing.IsFileExistsInDir | src/isdk_utils.c:559-563 | true just when some entry passes, before any that cannot be read |
| DirListing.PagesCover | src/isdk_utils.c:450-582 | pages read until they cover the count are the whole listing, which is also what no limit gives |
| DirListing.PagesConcatenate | src/isdk_utils.c:450-582 | consecutive pages make up the listing without gap or overlap |
| GrowingArray.RoundUp32 | src/deps/darray.h:283-285 | the result is the power of two in [n, 2n) if and only if n - 1 has no run of 32 zero bits and the power fits; up to 2^63 it is at least n in any case |
| GrowingArray.Small32IsGapless | src/deps/darray.h:283-285 | that condition holds for every argument up to 2^32 |
| GrowingArray.DArray.GrowAlloc | src/deps/darray.h:300-307 | the new room covers the need and is a power of two exactly under that condition, the old elements are kept, and one copy of the old room is paid |
| GrowingArray.DArray.Append | src/deps/darray.h:192-195 | the contents grow by the item; below 2^38 elements size, room and cost follow the doubling scheme |
| GrowingArray.GrowthIsGapless | src/deps/darray.h:283-307 | a full array of 2^p elements, p at least 6, rounds up to twice its size if and only if p < 38 |
| GrowingArray.AppendsCost | src/deps/darray.h:192-307 | n appends, each as darray_append behaves below 2^38 elements, move fewer than 2n elements in all |
| GrowingArray.AppendsDouble | src/deps/darray.h:192-307 | under the same bound of 2^38 elements, the room is zero or a power of two of at least 64, and more than half used beyond that |
| GrowingArray.FirstRoom | src/deps/darray.h:117-307 | the first room is for 64 elements, the next for 128 |

## Left out

- Real system calls and their failures (stat, open, readdir, fts, mkdir, unlink): the tree of directories stands for the file system and every call succeeds; attribute files live in a name space of their own.
- KeyStore.Store.KeyIsExists: the answer -1 for a plain file under the name of the key; files and directories have separate names here.
- KeyStore.Store.KeyDelete: does not return the source's bool, which reports errors of the file-system walk; that walk is the removal of the subtree.
- Storage in extended attributes (`src/isdk_xattr.c`) and `iKeyAlias` (symbolic links).
- Values of errno other than the refusal codes of a put; stale values left from earlier calls.
- The dkFixed and dkReserved policies for a full partition: the code has no behaviour of its own for them. In a listing, dkFixed (which deletes directories while walking) is left out. The source takes from its argument whether duplicates are wanted (dkReserved) and otherwise from the global variable whether they stop the walk; each combination without dkFixed is one `Processor`.
- Keys with a dot, a slash, a NUL or invalid UTF-8: the operations are modelled on them, the theorems about runs and layout exclude them, since a dotted suffix can pass for a partition directory.
- Keys of several segments: only the last segment is partitioned, so the parent is a parameter; runs over parents of which one lies below another are covered by the theorems on any well-formed tree, not by the maps.
- Enumeration.SubkeyWalk: only the unlimited walk without pattern and skip. skipCount and leftCount are copied per partition and not passed on between siblings, so pages of a partitioned directory have no clean meaning. The running index passed to the processor is not modelled.
- Enumeration.SubkeyTotal: requires fewer than 2^63 directories, so that the wrapped leftCount is never reached.
- Enumeration.PartitionWalk: the walk takes the tree as a value, since it changes nothing.
- Decomposition.Decompose: the REJECTNA option, whose error value is added to counts by nested calls, is left out.
- Contents of the Unicode tables (`src/deps/utf8proc_data.c`): parameters, assumed well-founded where mappings recurse, with class 0 for Hangul jamo and syllables where Hangul is concerned, and in `Normalization` with compositions and marks as `CanonicalTables` says.
- Reencoding.EncodeInPlace: works on bytes read as little-endian 32-bit words; ToMemory, which lays the words out as bytes, stands for reading the same memory in two ways.
- Masks and shifts of the UTF-8 codec are written as quotients and remainders.
- QuotedArgs.SplitArgs: reads a line without inner NUL, as a C string is; printed lines qualify (LayoutWithoutNul).
- UrlCoding.UrlDecode: does not model `%uXXXX` escapes, for which the code reads two positions behind the escape.
- UrlCoding.UrlEncode: `char` is signed, as on the common platforms.
- RelativePath.GetRelativePath: requires a non-empty `from`, since the source reads its last character; a count below zero, on which the source's loop does not stop, is the result None.
- PathStrings.ExtractLastPathName: a path of separators only leaves the empty string here; the source would read in front of the string.
- DirListing.ListDir: the outcome of lstat and stat is part of an entry, and the pattern is a predicate.
- GrowingArray.DArray.GrowAlloc: requires a need below 2^63 - 64, beyond any memory; `Appends` stands for the method below 2^38 elements. The removal and prepend macros are left out.
- `iIncrBy` and `iGetCount` with the `.count` files, `src/idb.c` (unfinished), `src/isdk_indexfile.*` (declarations), `src/deps/adlist.*`, zmalloc, random numbers, floating point parsing and the benchmark.
